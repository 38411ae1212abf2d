/** Group nodes of one type: a linked list mirrored by a chained hash map, and the services on them. */
module GroupIndexSpec {

  import opened Options
  import opened Int32

  const BUCKETS := 32

  /** A node is known by its address, which is never given out twice. */
  datatype Node = Node(name: string, address: nat)

  // ---- Hashing ---------------------------------------------------------------------------------

  /** Whether plain characters are signed, which the platform decides. */
  const CHAR_IS_SIGNED: bool

  /** A byte of a name as a number. */
  function CharValue(c: char): int {
    var byte := c as int % 256;
    if CHAR_IS_SIGNED && byte >= 128 then byte - 256 else byte
  }

  /** How far the characters are from 'A', all together. */
  function Distance(key: string): int {
    if key == "" then 0 else Distance(key[..|key| - 1]) + (CharValue(key[|key| - 1]) - 'A' as int)
  }

  function HashCode(key: string): int { Wrap32(Distance(key)) }

  function Bucket(name: string): (b: nat)
    ensures b < BUCKETS
  {
    var code := HashCode(name);
    (if code < 0 then -code else code) % BUCKETS
  }

  /** Distances above and below 'A' alike choose one of 32 buckets. */
  lemma Buckets()
    ensures Bucket("init") == 16 && Bucket("0") == 17
  {
    assert "init"[..3] == "ini" && "ini"[..2] == "in" && "in"[..1] == "i" && "i"[..0] == "";
    assert Distance("i") == 40 && Distance("in") == 85 && Distance("ini") == 125;
    assert "0"[..0] == "" && Distance("0") == -17;
  }

  // ---- Chains ----------------------------------------------------------------------------------

  function Find(s: seq<Node>, name: string): (r: Option<Node>)
    ensures r.Some? ==> r.value in s && r.value.name == name
    ensures r.None? ==> forall i | 0 <= i < |s| :: s[i].name != name
  {
    if s == [] then None else if s[0].name == name then Some(s[0]) else Find(s[1..], name)
  }

  function Without(s: seq<Node>, name: string): seq<Node> {
    if s == [] then [] else if s[0].name == name then s[1..] else [s[0]] + Without(s[1..], name)
  }

  /** The nodes of the list that belong in bucket `b`, in list order. */
  function InBucket(s: seq<Node>, b: nat): seq<Node> {
    if s == [] then [] else (if Bucket(s[0].name) == b then [s[0]] else []) + InBucket(s[1..], b)
  }

  lemma {:induction false} FindInBucket(s: seq<Node>, name: string)
    ensures Find(InBucket(s, Bucket(name)), name) == Find(s, name)
  {
    if s != [] {
      FindInBucket(s[1..], name);
      var rest := InBucket(s[1..], Bucket(name));
      if Bucket(s[0].name) == Bucket(name) {
        assert ([s[0]] + rest)[1..] == rest;
      } else {
        assert [] + rest == rest;
      }
    }
  }

  lemma {:induction false} WithoutInBucket(s: seq<Node>, name: string, b: nat)
    ensures InBucket(Without(s, name), b)
         == if b == Bucket(name) then Without(InBucket(s, b), name) else InBucket(s, b)
  {
    if s != [] {
      WithoutInBucket(s[1..], name, b);
      var rest := InBucket(s[1..], b);
      assert s[0].name != name ==> ([s[0]] + Without(s[1..], name))[1..] == Without(s[1..], name);
      if Bucket(s[0].name) == b {
        assert ([s[0]] + rest)[1..] == rest;
      } else {
        assert [] + rest == rest;
      }
    }
  }

  // ---- State and steps ---------------------------------------------------------------------------

  /**
   * The list, its mirror, the addresses of nodes with a service, the service count, the next
   * address, and how many nodes were deleted with their service still on them.
   */
  datatype State = State(list: seq<Node>, buckets: seq<seq<Node>>, services: set<nat>,
                         count: int, next: nat, stranded: nat)

  datatype Event =
    | AddNode(name: string, nodeOk: bool)
    | DelNode(name: string)
    | AddService(name: string, inGroup: bool, nodeOk: bool, serviceOk: bool)
    | Release(name: string)

  function Get(s: State, name: string): Option<Node>
    requires |s.buckets| == BUCKETS
  {
    Find(s.buckets[Bucket(name)], name)
  }

  function AddNodeStep(s: State, name: string, nodeOk: bool): (r: State)
    requires |s.buckets| == BUCKETS
    ensures |r.buckets| == BUCKETS
  {
    if Get(s, name).Some? || !nodeOk then s else
    var n, b := Node(name, s.next), Bucket(name);
    s.(list := [n] + s.list, buckets := s.buckets[b := [n] + s.buckets[b]], next := s.next + 1)
  }

  function DelNodeStep(s: State, name: string): (r: State)
    requires |s.buckets| == BUCKETS
    ensures |r.buckets| == BUCKETS
  {
    var b := Bucket(name);
    var stranded := match Find(s.list, name) case None => 0 case Some(n) => if n.address in s.services then 1 else 0;
    var gone := match Find(s.list, name) case None => {} case Some(n) => {n.address};
    s.(list := Without(s.list, name), buckets := s.buckets[b := Without(s.buckets[b], name)],
       services := s.services - gone, stranded := s.stranded + stranded)
  }

  function ReleaseStep(s: State, name: string): (r: State)
    requires |s.buckets| == BUCKETS
    ensures |r.buckets| == BUCKETS
  {
    match Get(s, name)
    case None => s
    case Some(n) => if n.address in s.services then s.(services := s.services - {n.address}, count := s.count - 1) else s
  }

  /** A name outside the group is refused only when no node has it. */
  function AddServiceStep(s: State, name: string, inGroup: bool, nodeOk: bool, serviceOk: bool): (r: State)
    requires |s.buckets| == BUCKETS
    ensures |r.buckets| == BUCKETS
  {
    if Get(s, name).None? && !inGroup then s else
    var s1 := AddNodeStep(s, name, nodeOk);
    match Get(s1, name)
    case None => s1
    case Some(n) =>
      var s2 := ReleaseStep(s1, name);
      if !serviceOk then s2 else s2.(services := s2.services + {n.address}, count := s2.count + 1)
  }

  function Step(s: State, e: Event): (r: State)
    requires |s.buckets| == BUCKETS
    ensures |r.buckets| == BUCKETS
  {
    match e
    case AddNode(name, nodeOk) => AddNodeStep(s, name, nodeOk)
    case DelNode(name) => DelNodeStep(s, name)
    case AddService(name, inGroup, nodeOk, serviceOk) => AddServiceStep(s, name, inGroup, nodeOk, serviceOk)
    case Release(name) => ReleaseStep(s, name)
  }

  function Init(): State {
    State([], seq(BUCKETS, _ => []), {}, 0, 0, 0)
  }

  function Run(es: seq<Event>): (s: State)
    ensures |s.buckets| == BUCKETS
  {
    if es == [] then Init() else Step(Run(es[..|es| - 1]), es[|es| - 1])
  }

  // ---- Agreement --------------------------------------------------------------------------------

  /** How many nodes of the list carry a service. */
  function Carrying(list: seq<Node>, services: set<nat>): nat {
    if list == [] then 0 else (if list[0].address in services then 1 else 0) + Carrying(list[1..], services)
  }

  ghost predicate Distinct(list: seq<Node>) {
    forall i, j | 0 <= i < j < |list| :: list[i].name != list[j].name && list[i].address != list[j].address
  }

  ghost predicate Mirrored(s: State) {
    |s.buckets| == BUCKETS && forall b | 0 <= b < BUCKETS :: s.buckets[b] == InBucket(s.list, b)
  }

  ghost predicate Sound(s: State) {
    && Mirrored(s) && Distinct(s.list)
    && (forall i | 0 <= i < |s.list| :: s.list[i].address < s.next)
    && (forall a | a in s.services :: a < s.next)
    && s.count == Carrying(s.list, s.services) + s.stranded
  }

  lemma LookupIsScan(s: State, name: string)
    requires Mirrored(s)
    ensures Get(s, name) == Find(s.list, name)
  {
    FindInBucket(s.list, name);
  }

  lemma {:induction false} CarryingSame(list: seq<Node>, a: set<nat>, b: set<nat>)
    requires forall i | 0 <= i < |list| :: list[i].address in a <==> list[i].address in b
    ensures Carrying(list, a) == Carrying(list, b)
  {
    if list != [] {
      CarryingSame(list[1..], a, b);
    }
  }

  lemma {:induction false} CarryingPlus(list: seq<Node>, services: set<nat>, n: Node)
    requires Distinct(list) && n in list && n.address !in services
    ensures Carrying(list, services + {n.address}) == Carrying(list, services) + 1
  {
    if list[0] == n {
      CarryingSame(list[1..], services + {n.address}, services);
    } else {
      assert list == [list[0]] + list[1..];
      CarryingPlus(list[1..], services, n);
      assert list[0].address != n.address;
    }
  }

  lemma CarryingMinus(list: seq<Node>, services: set<nat>, n: Node)
    requires Distinct(list) && n in list && n.address in services
    ensures Carrying(list, services - {n.address}) == Carrying(list, services) - 1
  {
    CarryingPlus(list, services - {n.address}, n);
    assert services - {n.address} + {n.address} == services;
  }

  lemma AddNodeSound(s: State, name: string, nodeOk: bool)
    requires Sound(s)
    ensures Sound(AddNodeStep(s, name, nodeOk))
    ensures AddNodeStep(s, name, nodeOk).stranded == s.stranded
  {
    LookupIsScan(s, name);
    if Get(s, name).None? && nodeOk {
      var t := AddNodeStep(s, name, nodeOk);
      assert t.list[1..] == s.list;
      forall b | 0 <= b < BUCKETS
        ensures t.buckets[b] == InBucket(t.list, b)
      {
        assert [] + InBucket(s.list, b) == InBucket(s.list, b);
      }
      CarryingSame(s.list, s.services, t.services);
    }
  }

  lemma ReleaseSound(s: State, name: string)
    requires Sound(s)
    ensures Sound(ReleaseStep(s, name))
    ensures ReleaseStep(s, name).list == s.list && ReleaseStep(s, name).buckets == s.buckets
    ensures ReleaseStep(s, name).next == s.next && ReleaseStep(s, name).stranded == s.stranded
    ensures Get(s, name).Some? ==> Get(s, name).value.address !in ReleaseStep(s, name).services
  {
    LookupIsScan(s, name);
    match Get(s, name)
    case None =>
    case Some(n) =>
      if n.address in s.services {
        CarryingMinus(s.list, s.services, n);
      }
  }

  lemma AddServiceSound(s: State, name: string, inGroup: bool, nodeOk: bool, serviceOk: bool)
    requires Sound(s)
    ensures Sound(AddServiceStep(s, name, inGroup, nodeOk, serviceOk))
    ensures AddServiceStep(s, name, inGroup, nodeOk, serviceOk).stranded == s.stranded
  {
    var s1 := AddNodeStep(s, name, nodeOk);
    AddNodeSound(s, name, nodeOk);
    LookupIsScan(s1, name);
    ReleaseSound(s1, name);
    match Get(s1, name)
    case None =>
    case Some(n) => CarryingPlus(s1.list, ReleaseStep(s1, name).services, n);
  }

  lemma {:induction false} WithoutMembers(list: seq<Node>, name: string)
    requires Distinct(list)
    ensures forall n :: n in Without(list, name) <==> n in list && n.name != name
  {
    if list != [] {
      WithoutMembers(list[1..], name);
      assert list == [list[0]] + list[1..];
    }
  }

  lemma {:induction false} WithoutDistinct(list: seq<Node>, name: string)
    requires Distinct(list)
    ensures Distinct(Without(list, name))
  {
    if list != [] && list[0].name != name {
      var t := Without(list[1..], name);
      WithoutDistinct(list[1..], name);
      WithoutMembers(list[1..], name);
      DistinctCons(list[0], t, list[1..]);
    }
  }

  lemma DistinctCons(n: Node, t: seq<Node>, rest: seq<Node>)
    requires Distinct([n] + rest) && Distinct(t) && forall x | x in t :: x in rest
    ensures Distinct([n] + t)
  {
    var whole := [n] + rest;
    forall k | 0 <= k < |t|
      ensures n.name != t[k].name && n.address != t[k].address
    {
      assert t[k] in t && t[k] in rest;
      var j :| 0 <= j < |rest| && rest[j] == t[k];
      assert whole[0] == n && whole[j + 1] == t[k];
    }
  }

  lemma {:induction false} CarryingWithout(list: seq<Node>, services: set<nat>, name: string)
    requires Distinct(list)
    ensures Carrying(Without(list, name), services)
         == Carrying(list, services) - (match Find(list, name)
                                        case None => 0
                                        case Some(n) => if n.address in services then 1 else 0)
  {
    if list != [] {
      CarryingWithout(list[1..], services, name);
      if list[0].name != name {
        assert ([list[0]] + Without(list[1..], name))[1..] == Without(list[1..], name);
      }
    }
  }

  lemma DelNodeSound(s: State, name: string)
    requires Sound(s)
    ensures Sound(DelNodeStep(s, name))
  {
    var t := DelNodeStep(s, name);
    forall b | 0 <= b < BUCKETS
      ensures t.buckets[b] == InBucket(t.list, b)
    {
      WithoutInBucket(s.list, name, b);
    }
    WithoutMembers(s.list, name);
    WithoutDistinct(s.list, name);
    CarryingWithout(s.list, s.services, name);
    forall i | 0 <= i < |t.list|
      ensures t.list[i].address < s.next && (t.list[i].address in t.services <==> t.list[i].address in s.services)
    {
      assert t.list[i] in t.list;
      SameAddressSameNode(s.list, t.list[i], name);
    }
    CarryingSame(t.list, t.services, s.services);
  }

  lemma SameAddressSameNode(list: seq<Node>, n: Node, name: string)
    requires Distinct(list) && n in list && n.name != name
    ensures Find(list, name).Some? ==> Find(list, name).value.address != n.address
  {
  }

  lemma StepSound(s: State, e: Event)
    requires Sound(s)
    ensures Sound(Step(s, e))
    ensures !e.DelNode? ==> Step(s, e).stranded == s.stranded
  {
    match e
    case AddNode(name, nodeOk) => AddNodeSound(s, name, nodeOk);
    case DelNode(name) => DelNodeSound(s, name);
    case AddService(name, inGroup, nodeOk, serviceOk) => AddServiceSound(s, name, inGroup, nodeOk, serviceOk);
    case Release(name) => ReleaseSound(s, name);
  }

  lemma {:induction false} RunSound(es: seq<Event>)
    ensures Sound(Run(es))
  {
    if es != [] {
      RunSound(es[..|es| - 1]);
      StepSound(Run(es[..|es| - 1]), es[|es| - 1]);
    }
  }

  // ---- Main results -----------------------------------------------------------------------------

  /** After every run the map and the list hold the same uniquely named nodes; lookup is a scan. */
  lemma {:induction false} IndexAgreesWithList(es: seq<Event>, name: string)
    ensures var s := Run(es);
      Mirrored(s) && Distinct(s.list) && Get(s, name) == Find(s.list, name)
  {
    RunSound(es);
    LookupIsScan(Run(es), name);
  }

  predicate HasService(s: State, name: string)
    requires |s.buckets| == BUCKETS
  {
    match Get(s, name) case None => false case Some(n) => n.address in s.services
  }

  predicate HasAddress(list: seq<Node>, a: nat) {
    exists i | 0 <= i < |list| :: list[i].address == a
  }

  ghost predicate OnNodes(s: State) {
    forall a | a in s.services :: HasAddress(s.list, a)
  }

  lemma AddNodeOnNodes(s: State, name: string, nodeOk: bool)
    requires OnNodes(s) && |s.buckets| == BUCKETS
    ensures OnNodes(AddNodeStep(s, name, nodeOk))
  {
    var t := AddNodeStep(s, name, nodeOk);
    forall a | a in t.services
      ensures HasAddress(t.list, a)
    {
      var i :| 0 <= i < |s.list| && s.list[i].address == a;
      assert t.list[i + |t.list| - |s.list|] == s.list[i];
    }
  }

  lemma DelNodeOnNodes(s: State, name: string)
    requires Sound(s) && OnNodes(s)
    ensures OnNodes(DelNodeStep(s, name))
  {
    var t := DelNodeStep(s, name);
    WithoutMembers(s.list, name);
    forall a | a in t.services
      ensures HasAddress(t.list, a)
    {
      var i :| 0 <= i < |s.list| && s.list[i].address == a;
      assert s.list[i].name != name;
      assert s.list[i] in t.list;
    }
  }

  lemma AddServiceOnNodes(s: State, name: string, inGroup: bool, nodeOk: bool, serviceOk: bool)
    requires Sound(s) && OnNodes(s)
    ensures OnNodes(AddServiceStep(s, name, inGroup, nodeOk, serviceOk))
  {
    AddNodeOnNodes(s, name, nodeOk);
    AddNodeSound(s, name, nodeOk);
    LookupIsScan(AddNodeStep(s, name, nodeOk), name);
  }

  lemma StepOnNodes(s: State, e: Event)
    requires Sound(s) && OnNodes(s)
    ensures OnNodes(Step(s, e))
  {
    match e
    case AddNode(name, nodeOk) => AddNodeOnNodes(s, name, nodeOk);
    case DelNode(name) => DelNodeOnNodes(s, name);
    case AddService(name, inGroup, nodeOk, serviceOk) => AddServiceOnNodes(s, name, inGroup, nodeOk, serviceOk);
    case Release(name) =>
  }

  /** After every run, every service sits on a node of the list. */
  lemma {:induction false} ServicesSitOnNodes(es: seq<Event>)
    ensures OnNodes(Run(es))
  {
    if es != [] {
      ServicesSitOnNodes(es[..|es| - 1]);
      RunSound(es[..|es| - 1]);
      StepOnNodes(Run(es[..|es| - 1]), es[|es| - 1]);
    }
  }

  predicate HasNode(s: State, name: string)
    requires |s.buckets| == BUCKETS
  {
    Get(s, name).Some?
  }

  /** The names with a node after an event: a name outside the group only keeps the one it has. */
  predicate Named(s: State, e: Event, name: string)
    requires |s.buckets| == BUCKETS
  {
    match e
    case AddNode(n, nodeOk) => HasNode(s, name) || (n == name && nodeOk)
    case DelNode(n) => HasNode(s, name) && n != name
    case AddService(n, inGroup, nodeOk, _) => HasNode(s, name) || (n == name && inGroup && nodeOk)
    case Release(_) => HasNode(s, name)
  }

  /** The names with a service after an event: a new one replaces the old one, also when it cannot be made. */
  predicate Served(s: State, e: Event, name: string)
    requires |s.buckets| == BUCKETS
  {
    match e
    case AddNode(_, _) => HasService(s, name)
    case DelNode(n) => HasService(s, name) && n != name
    case AddService(n, _, _, serviceOk) => if n == name then serviceOk && Named(s, e, name) else HasService(s, name)
    case Release(n) => HasService(s, name) && n != name
  }

  lemma AddNodeNames(s: State, n: string, nodeOk: bool, name: string)
    requires Sound(s)
    ensures HasNode(AddNodeStep(s, n, nodeOk), name) == Named(s, AddNode(n, nodeOk), name)
    ensures HasService(AddNodeStep(s, n, nodeOk), name) == HasService(s, name)
  {
    AddNodeSound(s, n, nodeOk);
    LookupIsScan(s, name);
    LookupIsScan(AddNodeStep(s, n, nodeOk), name);
    LookupIsScan(s, n);
    assert ([Node(n, s.next)] + s.list)[1..] == s.list;
  }

  lemma {:induction false} FindWithout(list: seq<Node>, n: string, name: string)
    requires Distinct(list)
    ensures Find(Without(list, n), name) == if n == name then None else Find(list, name)
  {
    if list != [] {
      FindWithout(list[1..], n, name);
      if list[0].name != n {
        assert ([list[0]] + Without(list[1..], n))[1..] == Without(list[1..], n);
      } else if n == name {
        assert forall i | 0 <= i < |list[1..]| :: list[1..][i] == list[i + 1] && list[i + 1].name != n;
      }
    }
  }

  lemma DelNodeNames(s: State, n: string, name: string)
    requires Sound(s)
    ensures HasNode(DelNodeStep(s, n), name) == Named(s, DelNode(n), name)
    ensures HasService(DelNodeStep(s, n), name) == Served(s, DelNode(n), name)
  {
    DelNodeSound(s, n);
    LookupIsScan(s, name);
    LookupIsScan(DelNodeStep(s, n), name);
    FindWithout(s.list, n, name);
    if n != name && Find(s.list, name).Some? {
      SameAddressSameNode(s.list, Find(s.list, name).value, n);
    }
  }

  lemma ReleaseNames(s: State, n: string, name: string)
    requires Sound(s)
    ensures HasNode(ReleaseStep(s, n), name) == HasNode(s, name)
    ensures HasService(ReleaseStep(s, n), name) == Served(s, Release(n), name)
  {
    ReleaseSound(s, n);
    LookupIsScan(s, name);
    LookupIsScan(s, n);
    if n != name && Find(s.list, name).Some? {
      SameAddressSameNode(s.list, Find(s.list, name).value, n);
    }
  }

  lemma SetNames(s: State, n: Node, name: string)
    requires Sound(s) && Get(s, n.name) == Some(n)
    ensures var t := s.(services := s.services + {n.address}, count := s.count + 1);
      HasNode(t, name) == HasNode(s, name) && HasService(t, name) == (n.name == name || HasService(s, name))
  {
    LookupIsScan(s, name);
    LookupIsScan(s, n.name);
    if n.name != name && Find(s.list, name).Some? {
      SameAddressSameNode(s.list, Find(s.list, name).value, n.name);
    }
  }

  lemma AddServiceNames(s: State, e: Event, name: string)
    requires Sound(s) && e.AddService?
    ensures HasNode(Step(s, e), name) == Named(s, e, name)
    ensures HasService(Step(s, e), name) == Served(s, e, name)
  {
    if Get(s, e.name).Some? || e.inGroup {
      var s1 := AddNodeStep(s, e.name, e.nodeOk);
      AddNodeSound(s, e.name, e.nodeOk);
      AddNodeNames(s, e.name, e.nodeOk, name);
      AddNodeNames(s, e.name, e.nodeOk, e.name);
      if Get(s1, e.name).Some? {
        ReleaseSound(s1, e.name);
        ReleaseNames(s1, e.name, name);
        SetNames(ReleaseStep(s1, e.name), Get(s1, e.name).value, name);
      }
    }
  }

  /** After every run, what an event makes of every name, its node and its service. */
  lemma {:induction false} EventNames(es: seq<Event>, e: Event, name: string)
    ensures HasNode(Run(es + [e]), name) == Named(Run(es), e, name)
    ensures HasService(Run(es + [e]), name) == Served(Run(es), e, name)
  {
    RunSound(es);
    assert (es + [e])[..|es|] == es;
    match e
    case AddNode(n, nodeOk) => AddNodeNames(Run(es), n, nodeOk, name);
    case DelNode(n) => DelNodeNames(Run(es), n, name);
    case AddService(_, _, _, _) => AddServiceNames(Run(es), e, name);
    case Release(n) => ReleaseNames(Run(es), n, name);
  }

  /** No event deletes a node whose service is still set. */
  ghost predicate DeletesOnlyIdle(es: seq<Event>) {
    forall k | 0 <= k < |es| :: es[k].DelNode? ==> !HasService(Run(es[..k]), es[k].name)
  }

  lemma OnlyIdleStep(es: seq<Event>, e: Event)
    ensures DeletesOnlyIdle(es + [e]) <==> DeletesOnlyIdle(es) && (e.DelNode? ==> !HasService(Run(es), e.name))
  {
    var all := es + [e];
    assert all[|es|] == e && all[..|es|] == es;
    assert forall k | 0 <= k < |es| :: all[k] == es[k] && all[..k] == es[..k];
  }

  lemma StrandedStep(s: State, e: Event)
    requires Sound(s)
    ensures Step(s, e).stranded == s.stranded + (if e.DelNode? && HasService(s, e.name) then 1 else 0)
  {
    StepSound(s, e);
    if e.DelNode? {
      LookupIsScan(s, e.name);
    }
  }

  lemma {:induction false} StrandedExactly(es: seq<Event>)
    ensures Run(es).stranded == 0 <==> DeletesOnlyIdle(es)
  {
    if es != [] {
      var init, last := es[..|es| - 1], es[|es| - 1];
      StrandedExactly(init);
      RunSound(init);
      StrandedStep(Run(init), last);
      OnlyIdleStep(init, last);
      assert es == init + [last];
    }
  }

  /** The service count is the number of nodes with a service exactly when none was deleted with one. */
  lemma {:induction false} ServiceCountExactlyWhen(es: seq<Event>)
    ensures var s := Run(es); s.count == Carrying(s.list, s.services) <==> DeletesOnlyIdle(es)
  {
    RunSound(es);
    StrandedExactly(es);
  }

  /** The smallest failure: add a service, delete its node. */
  lemma DeletingABusyNodeMiscounts()
    ensures var s := Run([AddService("a", true, true, true), DelNode("a")]);
      s.count == 1 && Carrying(s.list, s.services) == 0
  {
    var add := AddService("a", true, true, true);
    var es := [add, DelNode("a")];
    assert es[..1] == [add];
    OneService("a");
    assert Run(es) == DelNodeStep(Run([add]), "a");
  }

  lemma OneService(name: string)
    ensures var s := Run([AddService(name, true, true, true)]);
      s.list == [Node(name, 0)] && s.services == {0} && s.count == 1
  {
    var add := AddService(name, true, true, true);
    assert [add][..0] == [] && Run([]) == Init();
    assert Run([add]) == AddServiceStep(Init(), name, true, true, true);
    var s1 := AddNodeStep(Init(), name, true);
    assert Get(Init(), name) == None;
    assert s1.list == [Node(name, 0)] && s1.services == {} && s1.count == 0;
    assert s1.buckets[Bucket(name)] == [Node(name, 0)];
    assert Get(s1, name) == Some(Node(name, 0));
  }
}
