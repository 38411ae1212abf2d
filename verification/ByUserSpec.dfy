/**
 Per-user instances of a service: a registry keyed by (service, user), the children it forked,
 and the parameters it publishes about them.

 `children` is the truth kept by the kernel: every forked child that nobody has waited for yet,
 with the instance it was forked for. The registry never reads it.
 */
module ByUserSpec {

  datatype Key = Key(service: string, user: nat)

  datatype Status = Idle | Started | Stopping | Stopped

  datatype Instance = Instance(key: Key, pid: int, status: Status)

  /** What the parameters of one instance say. */
  datatype Shown = Shown(status: Status, pid: int)

  datatype Registry = Registry(insts: seq<Instance>, params: map<Key, Shown>, children: map<int, Key>)

  datatype Kill = KillOk | NoSuchProcess | KillFailed

  /** Answers to one start request. `forkPid <= 0` is a failed fork. */
  datatype StartEnv = StartEnv(
    templateFound: bool, templateSupported: bool, templateInvalid: bool, allocOk: bool,
    pathArgsOk: bool, statOk: bool, forkPid: int)

  /** The position of the first instance with key `k`, or the length. */
  function Find(insts: seq<Instance>, k: Key): (i: nat)
    ensures i <= |insts|
    ensures i < |insts| ==> insts[i].key == k
    ensures forall j | 0 <= j < i :: insts[j].key != k
  {
    if insts == [] then 0 else if insts[0].key == k then 0 else 1 + Find(insts[1..], k)
  }

  /** The position of the first instance with pid `p`, or the length. */
  function FindPid(insts: seq<Instance>, p: int): (i: nat)
    ensures i <= |insts|
    ensures i < |insts| ==> insts[i].pid == p
    ensures forall j | 0 <= j < i :: insts[j].pid != p
  {
    if insts == [] then 0 else if insts[0].pid == p then 0 else 1 + FindPid(insts[1..], p)
  }

  function ShownPid(pid: int): int { if pid <= 0 then 0 else pid }

  /** Record `status` and `pid` in the instance and write both parameters. */
  function WriteState(r: Registry, i: nat, pid: int, status: Status): Registry
    requires i < |r.insts|
  {
    var inst := r.insts[i].(pid := pid, status := status);
    r.(insts := r.insts[i := inst], params := r.params[inst.key := Shown(status, ShownPid(pid))])
  }

  function Remove(r: Registry, i: nat): Registry
    requires i < |r.insts|
  {
    r.(insts := r.insts[..i] + r.insts[i + 1..])
  }

  function GetOrCreate(r: Registry, k: Key): Registry {
    if Find(r.insts, k) < |r.insts| then r else r.(insts := [Instance(k, -1, Idle)] + r.insts)
  }

  /** Fork for the instance, unless it has a child or the template or its path is unusable. */
  function LaunchStep(r: Registry, i: nat, env: StartEnv): Registry
    requires i < |r.insts|
  {
    if !env.pathArgsOk || r.insts[i].pid > 0 || env.templateInvalid || !env.statOk || env.forkPid <= 0 then r
    else WriteState(r, i, env.forkPid, Started).(children := r.children[env.forkPid := r.insts[i].key])
  }

  function StartStep(r: Registry, k: Key, env: StartEnv): Registry {
    if !env.templateFound || !env.templateSupported then r
    else if Find(r.insts, k) == |r.insts| && !env.allocOk then r
    else
      var r1 := GetOrCreate(r, k);
      LaunchStep(r1, Find(r1.insts, k), env)
  }

  function StopInstance(r: Registry, i: nat, kill: Kill): Registry
    requires i < |r.insts|
  {
    var pid := r.insts[i].pid;
    var r1 := WriteState(r, i, pid, Stopping);
    if pid <= 0 then WriteState(r1, i, pid, Stopped)
    else if kill == NoSuchProcess then WriteState(r1, i, -1, Stopped)
    else r1
  }

  /** Stop the instance, and drop it when it has no child left. */
  function StopOne(r: Registry, i: nat, kill: Kill): Registry
    requires i < |r.insts|
  {
    var r1 := StopInstance(r, i, kill);
    if r1.insts[i].pid <= 0 then Remove(r1, i) else r1
  }

  function StopStep(r: Registry, k: Key, kill: Kill): Registry {
    var i := Find(r.insts, k);
    if i == |r.insts| then r else StopOne(r, i, kill)
  }

  function KillOf(kills: map<int, Kill>, pid: int): Kill { if pid in kills then kills[pid] else KillOk }

  function StopFrom(r: Registry, i: nat, kills: map<int, Kill>): Registry
    requires i <= |r.insts|
    decreases |r.insts| - i
  {
    if i == |r.insts| then r
    else
      var r1 := StopInstance(r, i, KillOf(kills, r.insts[i].pid));
      if r1.insts[i].pid <= 0 then StopFrom(Remove(r1, i), i, kills) else StopFrom(r1, i + 1, kills)
  }

  function ReapStep(r: Registry, pid: int): Registry {
    var r0 := r.(children := r.children - {pid});
    var i := FindPid(r.insts, pid);
    if pid <= 0 || i == |r.insts| then r0 else Remove(WriteState(r0, i, -1, Stopped), i)
  }

  datatype Event =
    | Start(key: Key, env: StartEnv)
    | Stop(key: Key, kill: Kill)
    | StopAll(kills: map<int, Kill>)
    | Reap(pid: int)
    | ReapElsewhere(pid: int)

  function Step(r: Registry, ev: Event): Registry {
    match ev
    case Start(k, env) => StartStep(r, k, env)
    case Stop(k, kill) => StopStep(r, k, kill)
    case StopAll(kills) => StopFrom(r, 0, kills)
    case Reap(pid) => ReapStep(r, pid)
    case ReapElsewhere(pid) => r.(children := r.children - {pid})
  }

  /**
   What the kernel can do: a new pid is not that of a child still to be waited for, only a child can be
   waited for, and a signal finds no process only when the child was already waited for.
   */
  predicate Enabled(r: Registry, ev: Event) {
    match ev
    case Start(_, env) => env.forkPid > 0 ==> env.forkPid !in r.children
    case Stop(k, kill) =>
      var i := Find(r.insts, k);
      i < |r.insts| && r.insts[i].pid in r.children ==> kill != NoSuchProcess
    case StopAll(kills) => forall p | p in r.children :: KillOf(kills, p) != NoSuchProcess
    case Reap(pid) => pid in r.children
    case ReapElsewhere(pid) => pid in r.children
  }

  function Run(r: Registry, evs: seq<Event>): Registry {
    if evs == [] then r else Step(Run(r, evs[..|evs| - 1]), evs[|evs| - 1])
  }

  predicate Legal(r: Registry, evs: seq<Event>) {
    evs == [] || (Legal(r, evs[..|evs| - 1]) && Enabled(Run(r, evs[..|evs| - 1]), evs[|evs| - 1]))
  }

  const Empty := Registry([], map[], map[])
}

/** What every run of the per-user registry keeps. */
module ByUserRuns {
  import opened ByUserSpec

  predicate KeysUnique(insts: seq<Instance>) {
    forall i, j | 0 <= i < j < |insts| :: insts[i].key != insts[j].key
  }

  predicate TracksAt(r: Registry, i: int, p: int) {
    0 <= i < |r.insts| && p in r.children && r.insts[i].pid == p && r.insts[i].key == r.children[p]
  }

  /** Every child nobody waited for is recorded by the instance it was forked for. */
  ghost predicate ChildrenTracked(r: Registry) {
    forall p | p in r.children :: p > 0 && exists i :: TracksAt(r, i, p)
  }

  function PublishedPid(r: Registry, k: Key): int { if k in r.params then r.params[k].pid else 0 }

  predicate HasKey(insts: seq<Instance>, k: Key) {
    exists i | 0 <= i < |insts| :: insts[i].key == k
  }

  /** The published pid of every key is the recorded one, and 0 for keys without an instance. */
  predicate ParamsAgree(r: Registry) {
    && (forall i | 0 <= i < |r.insts| :: PublishedPid(r, r.insts[i].key) == ShownPid(r.insts[i].pid))
    && (forall k | k in r.params && !HasKey(r.insts, k) :: r.params[k].pid == 0)
  }

  ghost predicate Inv(r: Registry) {
    KeysUnique(r.insts) && ChildrenTracked(r) && ParamsAgree(r)
  }

  /** What an outside observer sees: the statement the registry exists for. */
  ghost predicate Sound(r: Registry) {
    && KeysUnique(r.insts)
    && (forall p, q | p in r.children && q in r.children && r.children[p] == r.children[q] :: p == q)
    && (forall p | p in r.children ::
          && PublishedPid(r, r.children[p]) == p
          && TracksAt(r, Find(r.insts, r.children[p]), p)
          && forall i | TracksAt(r, i, p) :: i == Find(r.insts, r.children[p]))
  }

  lemma InvIsSound(r: Registry)
    requires Inv(r)
    ensures Sound(r)
  {
    forall p | p in r.children
      ensures PublishedPid(r, r.children[p]) == p
      ensures TracksAt(r, Find(r.insts, r.children[p]), p)
      ensures forall i | TracksAt(r, i, p) :: i == Find(r.insts, r.children[p])
    {
      var i :| TracksAt(r, i, p);
    }
  }

  /** Recording a new status, and dropping a pid whose child is gone, keep the invariant. */
  lemma WriteKeepsInv(r: Registry, i: nat, pid: int, status: Status)
    requires Inv(r) && i < |r.insts|
    requires pid == r.insts[i].pid || (pid <= 0 && r.insts[i].pid !in r.children)
    ensures Inv(WriteState(r, i, pid, status))
  {
    var r1 := WriteState(r, i, pid, status);
    var k := r.insts[i].key;
    forall p | p in r1.children
      ensures p > 0 && exists j :: TracksAt(r1, j, p)
    {
      var j :| TracksAt(r, j, p);
      assert TracksAt(r1, j, p);
    }
    SameKeys(r.insts, r1.insts);
  }

  lemma SameKeys(a: seq<Instance>, b: seq<Instance>)
    requires |a| == |b| && forall i | 0 <= i < |a| :: a[i].key == b[i].key
    ensures forall k :: HasKey(a, k) <==> HasKey(b, k)
  {
    forall k
      ensures HasKey(a, k) <==> HasKey(b, k)
    {
      if i :| 0 <= i < |a| && a[i].key == k {
        assert b[i].key == k;
      }
      if i :| 0 <= i < |b| && b[i].key == k {
        assert a[i].key == k;
      }
    }
  }

  lemma WithoutOne(insts: seq<Instance>, i: nat)
    requires i < |insts|
    ensures var rest := insts[..i] + insts[i + 1..];
            && (KeysUnique(insts) ==> KeysUnique(rest))
            && forall k | HasKey(insts, k) && k != insts[i].key :: HasKey(rest, k)
  {
    var rest := insts[..i] + insts[i + 1..];
    assert forall j | 0 <= j < |rest| :: rest[j] == insts[if j < i then j else j + 1];
    forall k | HasKey(insts, k) && k != insts[i].key
      ensures HasKey(rest, k)
    {
      var j :| 0 <= j < |insts| && insts[j].key == k;
      assert rest[if j < i then j else j - 1].key == k;
    }
  }

  /** An instance without a live pid may leave the registry. */
  lemma RemoveKeepsInv(r: Registry, i: nat)
    requires Inv(r) && i < |r.insts| && r.insts[i].pid <= 0
    ensures Inv(Remove(r, i))
  {
    WithoutOne(r.insts, i);
    RemoveKeepsTracking(r, i);
    RemoveKeepsParams(r, i);
  }

  lemma RemoveKeepsTracking(r: Registry, i: nat)
    requires ChildrenTracked(r) && i < |r.insts| && r.insts[i].pid <= 0
    ensures ChildrenTracked(Remove(r, i))
  {
    var r1 := Remove(r, i);
    forall p | p in r1.children
      ensures p > 0 && exists j :: TracksAt(r1, j, p)
    {
      var j :| TracksAt(r, j, p);
      assert TracksAt(r1, if j < i then j else j - 1, p);
    }
  }

  lemma RemoveKeepsParams(r: Registry, i: nat)
    requires ParamsAgree(r) && i < |r.insts| && r.insts[i].pid <= 0
    ensures ParamsAgree(Remove(r, i))
  {
    WithoutOne(r.insts, i);
    var r1 := Remove(r, i);
    assert forall j | 0 <= j < |r1.insts| :: r1.insts[j] == r.insts[if j < i then j else j + 1];
    assert PublishedPid(r, r.insts[i].key) == 0;
  }

  lemma WithOneMore(insts: seq<Instance>, inst: Instance)
    ensures forall k | HasKey(insts, k) || k == inst.key :: HasKey([inst] + insts, k)
  {
    forall k | HasKey(insts, k) || k == inst.key
      ensures HasKey([inst] + insts, k)
    {
      if HasKey(insts, k) {
        var j :| 0 <= j < |insts| && insts[j].key == k;
        assert ([inst] + insts)[j + 1].key == k;
      } else {
        assert ([inst] + insts)[0].key == k;
      }
    }
  }

  lemma CreateKeepsInv(r: Registry, k: Key)
    requires Inv(r)
    ensures Inv(GetOrCreate(r, k)) && Find(GetOrCreate(r, k).insts, k) < |GetOrCreate(r, k).insts|
  {
    var r1 := GetOrCreate(r, k);
    if Find(r.insts, k) == |r.insts| {
      assert forall j | 0 < j < |r1.insts| :: r1.insts[j] == r.insts[j - 1];
      forall p | p in r1.children
        ensures p > 0 && exists j :: TracksAt(r1, j, p)
      {
        var j :| TracksAt(r, j, p);
        assert TracksAt(r1, j + 1, p);
      }
      WithOneMore(r.insts, Instance(k, -1, Idle));
    }
  }

  /** A forked child goes to an instance that had none. */
  lemma ForkKeepsInv(r: Registry, i: nat, pid: int)
    requires Inv(r) && i < |r.insts| && r.insts[i].pid <= 0
    requires pid > 0 && pid !in r.children
    ensures Inv(WriteState(r, i, pid, Started).(children := r.children[pid := r.insts[i].key]))
  {
    var r1 := WriteState(r, i, pid, Started).(children := r.children[pid := r.insts[i].key]);
    SameKeys(r.insts, r1.insts);
    ForkKeepsTracking(r, i, pid);
  }

  lemma ForkKeepsTracking(r: Registry, i: nat, pid: int)
    requires ChildrenTracked(r) && i < |r.insts| && r.insts[i].pid <= 0 && pid > 0
    ensures ChildrenTracked(WriteState(r, i, pid, Started).(children := r.children[pid := r.insts[i].key]))
  {
    var r1 := WriteState(r, i, pid, Started).(children := r.children[pid := r.insts[i].key]);
    forall p | p in r1.children
      ensures p > 0 && exists j :: TracksAt(r1, j, p)
    {
      if p == pid {
        assert TracksAt(r1, i, p);
      } else {
        var j :| TracksAt(r, j, p);
        assert TracksAt(r1, j, p);
      }
    }
  }

  lemma StartKeepsInv(r: Registry, k: Key, env: StartEnv)
    requires Inv(r) && Enabled(r, Start(k, env))
    ensures Inv(StartStep(r, k, env))
  {
    CreateKeepsInv(r, k);
    var r1 := GetOrCreate(r, k);
    var i := Find(r1.insts, k);
    if r1.insts[i].pid <= 0 && env.forkPid > 0 {
      ForkKeepsInv(r1, i, env.forkPid);
    }
  }

  lemma StopInstanceKeepsInv(r: Registry, i: nat, kill: Kill)
    requires Inv(r) && i < |r.insts|
    requires r.insts[i].pid in r.children ==> kill != NoSuchProcess
    ensures Inv(StopInstance(r, i, kill))
    ensures StopInstance(r, i, kill).children == r.children
  {
    var pid := r.insts[i].pid;
    WriteKeepsInv(r, i, pid, Stopping);
    var r1 := WriteState(r, i, pid, Stopping);
    if pid <= 0 {
      WriteKeepsInv(r1, i, pid, Stopped);
    } else if kill == NoSuchProcess {
      WriteKeepsInv(r1, i, -1, Stopped);
    }
  }

  lemma {:induction false} StopFromKeepsInv(r: Registry, i: nat, kills: map<int, Kill>)
    requires Inv(r) && i <= |r.insts|
    requires forall p | p in r.children :: KillOf(kills, p) != NoSuchProcess
    ensures Inv(StopFrom(r, i, kills))
    decreases |r.insts| - i
  {
    if i < |r.insts| {
      var kill := KillOf(kills, r.insts[i].pid);
      StopInstanceKeepsInv(r, i, kill);
      var r1 := StopInstance(r, i, kill);
      if r1.insts[i].pid <= 0 {
        RemoveKeepsInv(r1, i);
        StopFromKeepsInv(Remove(r1, i), i, kills);
      } else {
        StopFromKeepsInv(r1, i + 1, kills);
      }
    }
  }

  lemma ForgetChildKeepsInv(r: Registry, pid: int)
    requires Inv(r)
    ensures Inv(r.(children := r.children - {pid}))
  {
    var r1 := r.(children := r.children - {pid});
    forall p | p in r1.children
      ensures p > 0 && exists j :: TracksAt(r1, j, p)
    {
      var j :| TracksAt(r, j, p);
      assert TracksAt(r1, j, p);
    }
  }

  lemma ReapKeepsInv(r: Registry, pid: int)
    requires Inv(r)
    ensures Inv(ReapStep(r, pid))
  {
    ForgetChildKeepsInv(r, pid);
    var r0 := r.(children := r.children - {pid});
    var i := FindPid(r.insts, pid);
    if pid > 0 && i < |r.insts| {
      WriteKeepsInv(r0, i, -1, Stopped);
      RemoveKeepsInv(WriteState(r0, i, -1, Stopped), i);
    }
  }

  lemma StepKeepsInv(r: Registry, ev: Event)
    requires Inv(r) && Enabled(r, ev)
    ensures Inv(Step(r, ev))
  {
    match ev
    case Start(k, env) => StartKeepsInv(r, k, env);
    case Stop(k, kill) =>
      var i := Find(r.insts, k);
      if i < |r.insts| {
        StopInstanceKeepsInv(r, i, kill);
        var r1 := StopInstance(r, i, kill);
        if r1.insts[i].pid <= 0 {
          RemoveKeepsInv(r1, i);
        }
      }
    case StopAll(kills) => StopFromKeepsInv(r, 0, kills);
    case Reap(pid) => ReapKeepsInv(r, pid);
    case ReapElsewhere(pid) => ForgetChildKeepsInv(r, pid);
  }

  /**
   Over every run, a (service, user) pair has at most one child that nobody waited for, that child is
   recorded by exactly one instance, keys stay unique, and the published pid of the pair is that child's pid.
   */
  lemma {:induction false} OneChildPerUser(evs: seq<Event>)
    requires Legal(Empty, evs)
    ensures Inv(Run(Empty, evs)) && Sound(Run(Empty, evs))
  {
    if evs != [] {
      OneChildPerUser(evs[..|evs| - 1]);
      StepKeepsInv(Run(Empty, evs[..|evs| - 1]), evs[|evs| - 1]);
    }
    InvIsSound(Run(Empty, evs));
  }
}
