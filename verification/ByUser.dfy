/** The per-user registry as init keeps it: a linked list updated in place, and the parameters it writes. */
module ByUser {
  import opened ByUserSpec

  class Node {
    const key: Key
    var pid: int
    var status: Status
    var next: Node?

    constructor (k: Key, rest: Node?)
      ensures key == k && pid == -1 && status == Idle && next == rest
    {
      key, pid, status, next := k, -1, Idle, rest;
    }
  }

  /** The node at position `i` of the list, or the null pointer that ends it. */
  ghost function At(nodes: seq<Node>, i: nat): Node? {
    if i < |nodes| then nodes[i] else null
  }

  /** The links visit `nodes` in order, each once. */
  ghost predicate Distinct(nodes: seq<Node>) {
    forall i, j | 0 <= i < j < |nodes| :: nodes[i] != nodes[j]
  }

  ghost predicate Linked(head: Node?, nodes: seq<Node>)
    reads nodes`next
  {
    && head == At(nodes, 0)
    && (forall i | 0 <= i < |nodes| :: nodes[i].next == At(nodes, i + 1))
    && Distinct(nodes)
  }

  ghost predicate Records(nodes: seq<Node>, insts: seq<Instance>)
    reads nodes`pid, nodes`status
  {
    |insts| == |nodes| && forall i | 0 <= i < |nodes| :: insts[i] == Instance(nodes[i].key, nodes[i].pid, nodes[i].status)
  }

  ghost function Without<T>(s: seq<T>, i: nat): (r: seq<T>)
    requires i < |s|
    ensures |r| == |s| - 1
    ensures forall j | 0 <= j < i :: r[j] == s[j]
    ensures forall j | i <= j < |r| :: r[j] == s[j + 1]
  {
    s[..i] + s[i + 1..]
  }

  lemma WithoutDistinct(nodes: seq<Node>, i: nat)
    requires i < |nodes| && Distinct(nodes)
    ensures Distinct(Without(nodes, i))
  {
  }

  lemma RecordsWithout(nodes: seq<Node>, insts: seq<Instance>, i: nat)
    requires i < |nodes| && Records(nodes, insts)
    ensures Records(Without(nodes, i), Without(insts, i))
  {
  }

  ghost predicate Within(nodes: seq<Node>, owned: seq<Node>) {
    forall j | 0 <= j < |nodes| :: nodes[j] in owned
  }

  lemma WithinTransitive(a: seq<Node>, b: seq<Node>, c: seq<Node>)
    requires Within(a, b) && Within(b, c)
    ensures Within(a, c)
  {
  }

  ghost function PidOf(inst: Instance): seq<int> {
    if inst.pid > 0 then [inst.pid] else []
  }

  /** The recorded pids, in list order. */
  ghost function Pids(insts: seq<Instance>): seq<int> {
    if insts == [] then [] else PidOf(insts[0]) + Pids(insts[1..])
  }

  /** Past the first instance, stopping it leaves the pids alone. */
  lemma PidsAfter(insts: seq<Instance>, i: nat, insts1: seq<Instance>)
    requires i < |insts|
    requires insts1 == insts[..i] + insts[i + 1..] || (|insts1| == |insts| && insts1[i + 1..] == insts[i + 1..])
    ensures Pids(insts[i..]) == PidOf(insts[i]) + Pids(insts1[if |insts1| < |insts| then i else i + 1..])
  {
    assert insts[i..][1..] == insts[i + 1..];
    if insts1 == insts[..i] + insts[i + 1..] {
      assert insts1[i..] == insts[i + 1..];
    }
  }

  /** Stopping one instance moves its pid from those still to be signalled to those that were. */
  lemma SignalledOne(r: Registry, i: nat, kill: Kill, sent: seq<int>, now: seq<int>, insts: seq<Instance>)
    requires i < |r.insts| && insts == StopOne(r, i, kill).insts && now == sent + PidOf(r.insts[i])
    ensures now + Pids(insts[if |insts| < |r.insts| then i else i + 1..]) == sent + Pids(r.insts[i..])
  {
    var r1 := StopInstance(r, i, kill).insts;
    assert r1[i + 1..] == r.insts[i + 1..] && r1[..i] == r.insts[..i];
    PidsAfter(r.insts, i, insts);
  }

  lemma StopFromOne(r: Registry, i: nat, kills: map<int, Kill>)
    requires i < |r.insts|
    ensures var r1 := StopOne(r, i, KillOf(kills, r.insts[i].pid));
            StopFrom(r, i, kills) == StopFrom(r1, if |r1.insts| < |r.insts| then i else i + 1, kills)
  {
  }

  lemma FoundAt(insts: seq<Instance>, k: Key, i: nat)
    requires i <= |insts| && (i < |insts| ==> insts[i].key == k) && forall j | 0 <= j < i :: insts[j].key != k
    ensures Find(insts, k) == i
  {
  }

  class InstanceList {
    var head: Node?
    var params: map<Key, Shown>
    ghost var children: map<int, Key>
    /** The nodes reached from the head in order, and what they record. */
    ghost var nodes: seq<Node>
    ghost var insts: seq<Instance>
    /** The pids signalled so far. */
    ghost var signals: seq<int>

    ghost predicate Valid()
      reads this, nodes
    {
      Linked(head, nodes) && Records(nodes, insts)
    }

    ghost function View(): Registry
      reads this
    {
      Registry(insts, params, children)
    }

    constructor ()
      ensures Valid() && View() == Empty && nodes == [] && signals == []
    {
      head, params, children, nodes, insts, signals := null, map[], map[], [], [], [];
    }

    method FindServiceByUserId(k: Key) returns (n: Node?)
      requires Valid()
      ensures n == At(nodes, Find(insts, k))
    {
      n := head;
      ghost var i := 0;
      while n != null
        invariant i <= |nodes| && n == At(nodes, i) && forall j | 0 <= j < i :: insts[j].key != k
        decreases |nodes| - i
      {
        if n.key == k {
          break;
        }
        n := n.next;
        i := i + 1;
      }
      FoundAt(insts, k, i);
    }

    method GetServiceByUserPid(pid: int) returns (n: Node?)
      requires Valid()
      ensures n == if pid <= 0 then null else At(nodes, FindPid(insts, pid))
    {
      if pid <= 0 {
        return null;
      }
      n := head;
      ghost var i := 0;
      while n != null
        invariant i <= |nodes| && n == At(nodes, i) && forall j | 0 <= j < i :: insts[j].pid != pid
        decreases |nodes| - i
      {
        if n.pid == pid {
          break;
        }
        n := n.next;
        i := i + 1;
      }
      assert FindPid(insts, pid) == i;
    }

    /** Records the status and publishes it with the pid the instance now has. */
    method WriteByUserServiceState(n: Node, status: Status, ghost i: nat)
      requires Valid() && i < |nodes| && nodes[i] == n
      modifies this`params, this`insts, n`status
      ensures Valid() && View() == WriteState(old(View()), i, n.pid, status)
    {
      n.status := status;
      insts := insts[i := insts[i].(status := status)];
      params := params[n.key := Shown(status, if n.pid <= 0 then 0 else n.pid)];
    }

    method SetStateAndPid(n: Node, pid: int, status: Status, ghost i: nat)
      requires Valid() && i < |nodes| && nodes[i] == n
      modifies this`params, this`insts, n`pid, n`status
      ensures Valid() && View() == WriteState(old(View()), i, pid, status)
    {
      n.pid := pid;
      insts := insts[i := insts[i].(pid := pid)];
      WriteByUserServiceState(n, status, i);
    }

    /** Makes the link that points at `n` skip it; without a node before it that link is the head. */
    method Unlink(link: Node?, n: Node, ghost i: nat)
      requires Valid() && i < |nodes| && nodes[i] == n && link == if i == 0 then null else nodes[i - 1]
      modifies this`head, this`nodes, this`insts, nodes`next
      ensures Valid() && View() == Remove(old(View()), i)
      ensures nodes == Without(old(nodes), i)
    {
      if link == null {
        head := n.next;
      } else {
        link.next := n.next;
      }
      WithoutDistinct(nodes, i);
      RecordsWithout(nodes, insts, i);
      nodes, insts := Without(nodes, i), Without(insts, i);
    }

    /** Walks the links until one of them points at the target, and makes that link skip it. */
    method RemoveServiceByUserIdInstance(target: Node, ghost at: nat)
      requires Valid() && if at < |nodes| then nodes[at] == target else target !in nodes
      modifies this`head, this`nodes, this`insts, nodes`next
      ensures Valid() && View() == if at < |old(nodes)| then Remove(old(View()), at) else old(View())
      ensures nodes == (if at < |old(nodes)| then Without(old(nodes), at) else old(nodes)) && Within(nodes, old(nodes))
    {
      var link: Node? := null;
      var n := head;
      ghost var i := 0;
      while n != null
        invariant i <= at && i <= |nodes| && n == At(nodes, i)
        invariant link == if i == 0 then null else nodes[i - 1]
        decreases |nodes| - i
      {
        if n == target {
          Unlink(link, n, i);
          return;
        }
        link, n := n, n.next;
        i := i + 1;
      }
    }

    method GetOrCreateServiceByUserId(k: Key, allocOk: bool) returns (n: Node?, ghost i: nat)
      requires Valid()
      modifies this`head, this`nodes, this`insts
      ensures Valid() && (n == null <==> Find(old(insts), k) == |old(insts)| && !allocOk)
      ensures View() == if n == null then old(View()) else GetOrCreate(old(View()), k)
      ensures n != null ==> i == Find(insts, k) && i < |nodes| && nodes[i] == n
      ensures nodes == old(nodes) || (nodes != [] && fresh(nodes[0]) && nodes[1..] == old(nodes))
    {
      i := Find(insts, k);
      n := FindServiceByUserId(k);
      if n == null && allocOk {
        n := new Node(k, head);
        i := 0;
        head, nodes, insts := n, [n] + nodes, [Instance(k, -1, Idle)] + insts;
      }
    }

    method StartInstanceProcess(n: Node, env: StartEnv, ghost i: nat) returns (started: bool)
      requires Valid() && i < |nodes| && nodes[i] == n
      modifies this`params, this`children, this`insts, n`pid, n`status
      ensures Valid() && View() == LaunchStep(old(View()), i, env)
      ensures started ==> insts[i].pid > 0
    {
      if !env.pathArgsOk {
        return false;
      }
      if n.pid > 0 {
        return true;
      }
      if env.templateInvalid || !env.statOk || env.forkPid <= 0 {
        return false;
      }
      children := children[env.forkPid := n.key];
      SetStateAndPid(n, env.forkPid, Started, i);
      return true;
    }

    method StartServiceInstanceByUserId(k: Key, env: StartEnv) returns (started: bool)
      requires Valid()
      modifies this`head, this`params, this`children, this`nodes, this`insts, nodes
      ensures Valid() && View() == StartStep(old(View()), k, env)
      ensures started ==> exists i | 0 <= i < |insts| :: insts[i].key == k && insts[i].pid > 0
      ensures nodes == old(nodes) || (nodes != [] && fresh(nodes[0]) && nodes[1..] == old(nodes))
    {
      if !env.templateFound || !env.templateSupported {
        return false;
      }
      var n, i := GetOrCreateServiceByUserId(k, env.allocOk);
      if n == null {
        return false;
      }
      started := StartInstanceProcess(n, env, i);
    }

    /** A child that is gone is recorded as such. */
    method SignalInstance(n: Node, kill: Kill, ghost i: nat)
      requires Valid() && i < |nodes| && nodes[i] == n
      modifies this`params, this`insts, this`signals, n`pid, n`status
      ensures Valid() && signals == old(signals) + [old(n.pid)]
      ensures View() == if kill == NoSuchProcess then WriteState(old(View()), i, -1, Stopped) else old(View())
    {
      signals := signals + [n.pid];
      if kill == NoSuchProcess {
        SetStateAndPid(n, -1, Stopped, i);
      }
    }

    method StopInstanceProcess(n: Node, kill: Kill, ghost i: nat)
      requires Valid() && i < |nodes| && nodes[i] == n
      modifies this`params, this`insts, this`signals, n`pid, n`status
      ensures Valid() && View() == StopInstance(old(View()), i, kill)
      ensures signals == old(signals) + PidOf(old(insts)[i])
    {
      WriteByUserServiceState(n, Stopping, i);
      if n.pid <= 0 {
        WriteByUserServiceState(n, Stopped, i);
      } else {
        SignalInstance(n, kill, i);
      }
    }

    /** Stops the instance and frees it when it has no child left. */
    method StopAndRelease(n: Node, kill: Kill, ghost i: nat)
      requires Valid() && i < |nodes| && nodes[i] == n
      modifies this`head, this`params, this`nodes, this`insts, this`signals, nodes
      ensures Valid() && View() == StopOne(old(View()), i, kill)
      ensures nodes == old(nodes) || nodes == Without(old(nodes), i)
      ensures Within(nodes, old(nodes))
      ensures signals == old(signals) + PidOf(old(insts)[i])
    {
      assert insts[i].pid == n.pid;
      StopInstanceProcess(n, kill, i);
      assert insts[i].pid == n.pid;
      if n.pid <= 0 {
        RemoveServiceByUserIdInstance(n, i);
      }
    }

    method StopServiceInstanceByUserId(k: Key, kill: Kill)
      requires Valid()
      modifies this`head, this`params, this`nodes, this`insts, this`signals, nodes
      ensures Valid() && View() == StopStep(old(View()), k, kill)
      ensures var i := Find(old(insts), k);
              signals == old(signals) + (if i < |old(insts)| then PidOf(old(insts)[i]) else [])
      ensures Within(nodes, old(nodes))
    {
      var n := FindServiceByUserId(k);
      if n != null {
        StopAndRelease(n, kill, Find(insts, k));
      }
    }

    /** The pointer saved before an instance may be freed is the next linked one afterwards. */
    method StopAllServiceByUserIdInstances(kills: map<int, Kill>)
      requires Valid()
      modifies this`head, this`params, this`nodes, this`insts, this`signals, nodes
      ensures Valid() && View() == StopFrom(old(View()), 0, kills)
      ensures signals == old(signals) + Pids(old(insts))
      ensures Within(nodes, old(nodes))
    {
      var n := head;
      ghost var i := 0;
      while n != null
        invariant Valid() && i <= |nodes| && n == At(nodes, i)
        invariant Within(nodes, old(nodes))
        invariant StopFrom(View(), i, kills) == StopFrom(old(View()), 0, kills)
        invariant signals + Pids(insts[i..]) == old(signals) + Pids(old(insts))
        decreases |nodes| - i
      {
        var next := n.next;
        ghost var r, before := View(), nodes;
        StopFromOne(r, i, kills);
        ghost var sent := signals;
        StopAndRelease(n, KillOf(kills, n.pid), i);
        WithinTransitive(nodes, before, old(nodes));
        SignalledOne(r, i, KillOf(kills, r.insts[i].pid), sent, signals, insts);
        n, i := next, if |insts| < |r.insts| then i else i + 1;
      }
    }

    method ReapServiceByUserId(pid: int) returns (found: bool)
      requires Valid()
      modifies this`head, this`params, this`children, this`nodes, this`insts, nodes
      ensures Valid() && View() == ReapStep(old(View()), pid)
      ensures found <==> pid > 0 && FindPid(old(insts), pid) < |old(insts)|
      ensures Within(nodes, old(nodes))
    {
      var n := GetServiceByUserPid(pid);
      children := children - {pid};
      if n == null {
        return false;
      }
      ghost var i := FindPid(insts, pid);
      SetStateAndPid(n, -1, Stopped, i);
      RemoveServiceByUserIdInstance(n, i);
      return true;
    }
  }
}
