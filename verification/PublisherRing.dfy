/**
 The queue of the device-event daemon on the heap. Its list operations write through the nodes' own links
 and test nothing: queueing a configuration looks whether its node is linked to itself, but the retry
 after a failed set does not, so it can append a node that is already in the ring.

 `Shape` describes every list this leads to. A `Chain` is right going forward from the head; unless it is
 `whole`, back links may be wrong, and if it `loops`, its last node is linked to itself. `Stuck` is a list
 whose first node cannot be unlinked.
 */
module PublisherRing {
  import opened Lists

  type Node = ListNode<nat>
  type MaybeNode = ListNode?<nat>

  datatype Shape =
    | Chain(ring: seq<Node>, loops: bool, whole: bool)
    | Stuck(n: Node)

  /** `dead` are the nodes cut off; `hand` is the configuration taken and not yet published. */
  datatype Queue = Queue(shape: Shape, dead: set<Node>, hand: MaybeNode)

  datatype Op = Enqueue(c: Node) | Take | Publish | Retry

  function Rest(ring: seq<Node>): seq<Node>
    requires |ring| >= 2
  {
    [ring[0]] + ring[2..]
  }

  function IndexOf(ring: seq<Node>, c: Node): (i: nat)
    ensures i <= |ring| && (i < |ring| ==> ring[i] == c) && forall j | 0 <= j < i :: ring[j] != c
  {
    if ring == [] || ring[0] == c then 0 else 1 + IndexOf(ring[1..], c)
  }

  function Behind(ring: seq<Node>, j: nat): set<Node> {
    set i | j < i < |ring| :: ring[i]
  }

  predicate WellFormed(q: Queue) {
    match q.shape
    case Chain(ring, loops, whole) => |ring| > 0 && (loops ==> |ring| > 1 && !whole)
    case Stuck(_) => true
  }

  /** A node that is linked to itself both ways is appended; for the looping node that changes nothing. */
  function EnqueueStep(q: Queue, c: Node): Queue
    requires WellFormed(q)
  {
    match q.shape
    case Chain(ring, _, whole) =>
      if c in ring || c in q.dead then q else q.(shape := Chain(ring + [c], false, whole))
    case Stuck(_) => q
  }

  function Taken(q: Queue): MaybeNode
    requires WellFormed(q)
  {
    match q.shape
    case Chain(ring, _, _) => if |ring| == 1 then null else ring[1]
    case Stuck(n) => n
  }

  function TakeStep(q: Queue): Queue
    requires WellFormed(q)
  {
    var shape :=
      match q.shape
      case Chain(ring, loops, whole) =>
        if |ring| == 1 then q.shape
        else if |ring| == 2 && loops then Stuck(ring[1])
        else Chain(Rest(ring), loops, whole)
      case Stuck(_) => q.shape;
    q.(shape := shape, hand := Taken(q))
  }

  /** The retry finds its configuration queued again. */
  predicate Requeued(q: Queue) {
    q.hand != null && q.shape.Chain? && q.hand in q.shape.ring
  }

  function RetryStep(q: Queue): Queue
    requires WellFormed(q) && q.hand != null
  {
    var c: Node := q.hand;
    match q.shape
    case Stuck(_) => q.(hand := null)
    case Chain(ring, _, whole) =>
      var j := IndexOf(ring, c);
      if j == |ring| then q.(shape := Chain(ring + [c], false, whole), hand := null)
      else
        q.(shape := if j <= 1 then Stuck(c) else Chain(ring[..j + 1], j == |ring| - 1, false),
           dead := q.dead + Behind(ring, j), hand := null)
  }

  // ---- The links ----------------------------------------------------------------------

  /** The two writes that unlink a node and the two that link it to itself. */
  function Unlinked(l: Links<nat>, n: Node): Links<nat> {
    var after, before := Next(l, n), Prev(l, n);
    Links(l.next[before := after][n := n], l.prev[after := before][n := n])
  }

  predicate Distinct(ring: seq<Node>) {
    forall i, j | 0 <= i < j < |ring| :: ring[i] != ring[j]
  }

  ghost predicate Runs(l: Links<nat>, ring: seq<Node>, loops: bool, whole: bool) {
    && |ring| > 0 && Distinct(ring)
    && (forall i | 0 <= i < |ring| - 1 :: Next(l, ring[i]) == ring[i + 1])
    && Next(l, ring[|ring| - 1]) == (if loops then ring[|ring| - 1] else ring[0])
    && Prev(l, ring[0]) == ring[|ring| - 1]
    && (forall i | 1 <= i < |ring| && (whole || i == 1) :: Prev(l, ring[i]) == ring[i - 1])
  }

  /** The first node's back link misses the head, so unlinking it leaves it first. */
  ghost predicate Clings(l: Links<nat>, head: Node, n: Node) {
    n != head && Next(l, head) == n && Prev(l, n) != head && Prev(l, head) != head
  }

  /** The test for an empty list, on any node. */
  predicate Alone(l: Links<nat>, n: Node) {
    Next(l, n) == n && Prev(l, n) == n
  }

  ghost predicate Members(l: Links<nat>, head: Node, ring: seq<Node>, dead: set<Node>, nodes: set<Node>) {
    && |ring| > 0 && ring[0] == head && (forall n | n in ring :: n in nodes && n !in dead)
    && (forall n | n in dead :: n in nodes && Next(l, n) != n)
    && (forall n | n in nodes && n !in ring && n !in dead :: Alone(l, n))
  }

  /** `nodes` are the head and all configurations. */
  ghost predicate Shaped(l: Links<nat>, head: Node, q: Queue, nodes: set<Node>) {
    && WellFormed(q) && head in nodes
    && (q.hand != null ==> q.hand in nodes && q.hand !in q.dead && q.hand != head)
    && match q.shape
       case Chain(ring, loops, whole) => Members(l, head, ring, q.dead, nodes) && Runs(l, ring, loops, whole)
       case Stuck(n) => n in nodes && n !in q.dead && Clings(l, head, n)
  }

  // ---- Appending without looking --------------------------------------------------------

  lemma AppendedNew(l: Links<nat>, head: Node, item: Node, ring: seq<Node>, loops: bool, whole: bool)
    requires Runs(l, ring, loops, whole) && ring[0] == head && item !in ring
    ensures Runs(Appended(l, head, item), ring + [item], false, whole)
  {
    var r := ring + [item];
    assert forall i | 0 <= i < |ring| :: r[i] == ring[i];
  }

  /** The node that loops at the end, appended once more. */
  lemma AppendedLoop(l: Links<nat>, head: Node, ring: seq<Node>)
    requires Runs(l, ring, true, false) && ring[0] == head && |ring| > 2
    ensures Runs(Appended(l, head, ring[|ring| - 1]), ring, true, false)
  {
  }

  lemma AppendedStuck(l: Links<nat>, head: Node, item: Node, n: Node)
    requires Clings(l, head, n) && item != head
    ensures Clings(Appended(l, head, item), head, n)
  {
  }

  /** A node appended where it already stands. */
  lemma AppendedTwice(l: Links<nat>, head: Node, ring: seq<Node>, loops: bool, whole: bool, j: nat)
    requires Runs(l, ring, loops, whole) && ring[0] == head && 1 <= j < |ring|
    ensures var l' := Appended(l, head, ring[j]);
            && (j == 1 ==> Clings(l', head, ring[j]))
            && (j > 1 ==> Runs(l', ring[..j + 1], j == |ring| - 1, false) && Prev(l', ring[j]) != ring[j - 1])
            && forall i | j < i < |ring| :: Next(l', ring[i]) != ring[i]
  {
    var l', r := Appended(l, head, ring[j]), ring[..j + 1];
    assert |r| == j + 1 && forall i | 0 <= i <= j :: r[i] == ring[i];
    forall i | j < i < |ring|
      ensures Next(l', ring[i]) != ring[i]
    {
      assert i < |ring| - 1 ==> Next(l, ring[i]) == ring[i + 1];
    }
  }

  // ---- Unlinking the first without looking ----------------------------------------------

  lemma UnlinkedFirst(l: Links<nat>, ring: seq<Node>, loops: bool, whole: bool)
    requires Runs(l, ring, loops, whole) && |ring| >= 2 && (loops ==> |ring| > 2 && !whole)
    ensures Runs(Unlinked(l, ring[1]), Rest(ring), loops, whole)
  {
    var r := Rest(ring);
    assert forall i | 1 <= i < |r| :: r[i] == ring[i + 1];
    if |ring| > 2 {
      assert r[|r| - 1] == ring[|ring| - 1] && r[1] == ring[2];
    }
  }

  lemma UnlinkedLoop(l: Links<nat>, ring: seq<Node>)
    requires Runs(l, ring, true, false) && |ring| == 2
    ensures Clings(Unlinked(l, ring[1]), ring[0], ring[1])
  {
  }

  lemma UnlinkedStuck(l: Links<nat>, head: Node, n: Node)
    requires Clings(l, head, n)
    ensures Clings(Unlinked(l, n), head, n)
  {
  }

  // ---- Which nodes are queued -------------------------------------------------------------

  lemma AppendedMembers(l: Links<nat>, head: Node, item: Node, ring: seq<Node>, dead: set<Node>, nodes: set<Node>)
    requires Members(l, head, ring, dead, nodes) && item in nodes && item !in dead && Prev(l, head) in ring
    ensures Members(Appended(l, head, item), head, if item in ring then ring else ring + [item], dead, nodes)
  {
  }

  lemma CutMembers(l: Links<nat>, head: Node, ring: seq<Node>, j: nat, dead: set<Node>, nodes: set<Node>)
    requires Members(l, head, ring, dead, nodes) && 1 <= j < |ring| && Prev(l, head) in ring && Distinct(ring)
    requires var l' := Appended(l, head, ring[j]); forall i | j < i < |ring| :: Next(l', ring[i]) != ring[i]
    ensures Members(Appended(l, head, ring[j]), head, ring[..j + 1], dead + Behind(ring, j), nodes)
  {
    var r, cut := ring[..j + 1], Behind(ring, j);
    assert forall n | n in ring :: n in r || n in cut;
    assert forall n | n in r :: n in ring && n !in cut;
    assert ring[j] in ring;
  }

  lemma UnlinkedMembers(l: Links<nat>, head: Node, ring: seq<Node>, dead: set<Node>, nodes: set<Node>)
    requires Members(l, head, ring, dead, nodes) && |ring| >= 2 && Prev(l, ring[1]) == head && Next(l, ring[1]) in ring
    ensures Members(Unlinked(l, ring[1]), head, Rest(ring), dead, nodes)
  {
    assert forall n | n in ring :: n == ring[1] || n in Rest(ring);
    assert forall n | n in Rest(ring) :: n in ring;
    assert ring[1] in ring && ring[0] in ring;
  }

  // ---- The operations on the links ---------------------------------------------------------

  /** The looping last node, behind another one. */
  predicate LoopsAt(q: Queue, c: Node)
    requires q.shape.Chain?
  {
    var ring := q.shape.ring;
    q.shape.loops && |ring| > 2 && c == ring[|ring| - 1]
  }

  /** What the guard of the append sees. */
  lemma LinkedToItself(l: Links<nat>, head: Node, q: Queue, nodes: set<Node>, c: Node)
    requires Shaped(l, head, q, nodes) && c in nodes && c != head && !q.shape.Stuck?
    ensures Prev(l, head) in q.shape.ring
    ensures Alone(l, c) ==> (c !in q.shape.ring && c !in q.dead) || LoopsAt(q, c)
    ensures c !in q.shape.ring && c !in q.dead ==> Alone(l, c)
  {
    var ring := q.shape.ring;
    var i := IndexOf(ring, c);
    if i < |ring| - 1 {
      assert Next(l, ring[i]) == ring[i + 1];
    }
  }

  lemma EnqueueKeepsShape(l: Links<nat>, head: Node, q: Queue, nodes: set<Node>, c: Node)
    requires Shaped(l, head, q, nodes) && c in nodes && c != head
    ensures Shaped(if Alone(l, c) then Appended(l, head, c) else l, head, EnqueueStep(q, c), nodes)
  {
    if q.shape.Stuck? {
      AppendedStuck(l, head, c, q.shape.n);
    } else {
      LinkedToItself(l, head, q, nodes, c);
      if Alone(l, c) {
        AppendKeepsShape(l, head, q, nodes, c);
      }
    }
  }

  lemma AppendKeepsShape(l: Links<nat>, head: Node, q: Queue, nodes: set<Node>, c: Node)
    requires Shaped(l, head, q, nodes) && q.shape.Chain? && c in nodes && c !in q.dead && c != head
    requires Prev(l, head) in q.shape.ring
    requires c in q.shape.ring ==> LoopsAt(q, c)
    ensures Shaped(Appended(l, head, c), head, EnqueueStep(q, c), nodes)
  {
    AppendedMembers(l, head, c, q.shape.ring, q.dead, nodes);
    if c in q.shape.ring {
      AppendedLoop(l, head, q.shape.ring);
    } else {
      AppendedNew(l, head, c, q.shape.ring, q.shape.loops, q.shape.whole);
    }
  }

  lemma TakeKeepsShape(l: Links<nat>, head: Node, q: Queue, nodes: set<Node>)
    requires Shaped(l, head, q, nodes)
    ensures if Taken(q) == null then Alone(l, head) else Next(l, head) == Taken(q) != head
    ensures Shaped(if Alone(l, head) then l else Unlinked(l, Next(l, head)), head, TakeStep(q), nodes)
  {
    if q.shape.Stuck? {
      UnlinkedStuck(l, head, q.shape.n);
    } else if |q.shape.ring| > 1 {
      var ring := q.shape.ring;
      assert ring[1] in ring && Next(l, ring[1]) == (if |ring| > 2 then ring[2] else if q.shape.loops then ring[1] else head);
      UnlinkedMembers(l, head, q.shape.ring, q.dead, nodes);
      if |q.shape.ring| == 2 && q.shape.loops {
        UnlinkedLoop(l, q.shape.ring);
      } else {
        UnlinkedFirst(l, q.shape.ring, q.shape.loops, q.shape.whole);
      }
    }
  }

  lemma RetryKeepsShape(l: Links<nat>, head: Node, q: Queue, nodes: set<Node>)
    requires Shaped(l, head, q, nodes) && q.hand != null
    ensures Shaped(Appended(l, head, q.hand), head, RetryStep(q), nodes)
  {
    var c: Node := q.hand;
    if q.shape.Stuck? {
      AppendedStuck(l, head, c, q.shape.n);
    } else {
      LinkedToItself(l, head, q, nodes, c);
      if c in q.shape.ring {
        RequeueKeepsShape(l, head, q, nodes);
      } else {
        AppendKeepsShape(l, head, q, nodes, c);
      }
    }
  }

  lemma RequeueKeepsShape(l: Links<nat>, head: Node, q: Queue, nodes: set<Node>)
    requires Shaped(l, head, q, nodes) && Requeued(q) && Prev(l, head) in q.shape.ring
    ensures Shaped(Appended(l, head, q.hand), head, RetryStep(q), nodes)
  {
    var ring := q.shape.ring;
    var j := IndexOf(ring, q.hand);
    AppendedTwice(l, head, ring, q.shape.loops, q.shape.whole, j);
    CutMembers(l, head, ring, j, q.dead, nodes);
  }

  // ---- On the heap --------------------------------------------------------------------------

  method ListRemoveAndInit(n: Node, ghost nodes: set<Node>)
    requires n in nodes && Closed(nodes)
    modifies nodes
    ensures Snapshot(nodes) == Unlinked(old(Snapshot(nodes)), n) && Closed(nodes)
  {
    SetPrev(n.next, n.prev, nodes);
    SetNext(n.prev, n.next, nodes);
    SetNext(n, n, nodes);
    SetPrev(n, n, nodes);
  }

  ghost predicate Holds(head: Node, q: Queue, nodes: set<Node>)
    reads nodes
  {
    Closed(nodes) && Shaped(Snapshot(nodes), head, q, nodes)
  }

  /** Queues a configuration unless its node is linked. */
  method AddParameter(head: Node, c: Node, ghost q: Queue, ghost nodes: set<Node>)
    requires Holds(head, q, nodes) && c in nodes && c != head
    modifies nodes
    ensures Holds(head, EnqueueStep(q, c), nodes)
  {
    EnqueueKeepsShape(Snapshot(nodes), head, q, nodes, c);
    if c.next == c && c.prev == c {
      AddTail(head, c, [], nodes);
    }
  }

  method GetFirstParameter(head: Node, ghost q: Queue, ghost nodes: set<Node>) returns (n: MaybeNode)
    requires Holds(head, q, nodes)
    modifies nodes
    ensures Holds(head, TakeStep(q), nodes) && n == Taken(q)
  {
    TakeKeepsShape(Snapshot(nodes), head, q, nodes);
    if head.next == head && head.prev == head {
      return null;
    }
    n := head.next;
    ListRemoveAndInit(n, nodes);
  }

  // ---- What the retry does to the ring --------------------------------------------------------

  lemma WholeIsRing(ring: seq<Node>, nodes: set<Node>)
    requires Runs(Snapshot(nodes), ring, false, true) && forall n | n in ring :: n in nodes
    ensures Ring(ring)
  {
    assert forall i | 0 <= i < |ring| :: ring[i] in nodes;
    forall i | 0 <= i < |ring|
      ensures ring[i].next == ring[After(i, |ring|)] && ring[After(i, |ring|)].prev == ring[i]
    {
    }
  }

  lemma BackFromFirst(r: seq<Node>)
    requires Ring(r)
    ensures r[0].next.prev == r[0]
  {
    assert r[After(0, |r|)].prev == r[0];
  }

  /** A ring from the head visits the chain that starts there, forwards and back. */
  lemma {:induction false} RingFollows(r: seq<Node>, chain: seq<Node>, i: nat)
    requires Ring(r) && i < |chain| && Distinct(chain) && r[0] == chain[0]
    requires forall j | 0 <= j < |chain| - 1 :: chain[j].next == chain[j + 1]
    ensures i < |r| && r[i] == chain[i] && (i > 0 ==> chain[i].prev == chain[i - 1])
  {
    if i > 0 {
      RingFollows(r, chain, i - 1);
      assert chain[i - 1].next == chain[i] && chain[0] != chain[i];
      assert r[After(i - 1, |r|)] == chain[i];
    }
  }

  /** A chain whose last node has a wrong back link is no ring, and neither is a stuck list. */
  lemma NotARing(r: seq<Node>, head: Node, q: Queue, nodes: set<Node>)
    requires Holds(head, q, nodes) && r != [] && r[0] == head
    requires q.shape.Chain? ==> var ring := q.shape.ring; |ring| > 1 && Prev(Snapshot(nodes), ring[|ring| - 1]) != ring[|ring| - 2]
    ensures !Ring(r)
  {
    var l := Snapshot(nodes);
    if q.shape.Stuck? {
      assert head.next == q.shape.n && head.next.prev != head;
      if Ring(r) {
        BackFromFirst(r);
      }
    } else {
      var chain := q.shape.ring;
      assert forall j | 0 <= j < |chain| :: chain[j] in nodes;
      assert forall j | 0 <= j < |chain| - 1 :: Next(l, chain[j]) == chain[j + 1];
      if Ring(r) {
        RingFollows(r, chain, |chain| - 1);
      }
    }
  }

  /** The retry leaves no ring behind a configuration that was queued again. */
  lemma NoRingLeft(head: Node, q: Queue, nodes: set<Node>, l: Links<nat>)
    requires Shaped(l, head, q, nodes) && Requeued(q)
    requires Snapshot(nodes) == Appended(l, head, q.hand) && Holds(head, RetryStep(q), nodes)
    ensures forall r: seq<Node> | r != [] && r[0] == head :: !Ring(r)
  {
    AppendedTwice(l, head, q.shape.ring, q.shape.loops, q.shape.whole, IndexOf(q.shape.ring, q.hand));
    forall r: seq<Node> | r != [] && r[0] == head
      ensures !Ring(r)
    {
      NotARing(r, head, RetryStep(q), nodes);
    }
  }

  lemma RingAfterRetry(head: Node, q: Queue, nodes: set<Node>, l: Links<nat>)
    requires Shaped(l, head, q, nodes) && q.shape.Chain? && q.shape.whole && q.hand != null
    requires Snapshot(nodes) == Appended(l, head, q.hand) && Holds(head, RetryStep(q), nodes)
    ensures (exists r: seq<Node> :: r != [] && r[0] == head && Ring(r)) <==> q.hand !in q.shape.ring
  {
    if q.hand in q.shape.ring {
      NoRingLeft(head, q, nodes, l);
    } else {
      WholeIsRing(q.shape.ring + [q.hand], nodes);
    }
  }

  /** The append after a failed set keeps a ring if and only if the configuration was not queued again meanwhile. */
  method RetryParameter(head: Node, c: Node, ghost q: Queue, ghost nodes: set<Node>)
    requires Holds(head, q, nodes) && q.hand == c
    modifies nodes
    ensures Holds(head, RetryStep(q), nodes)
    ensures q.shape.Chain? && q.shape.whole ==>
            ((exists r: seq<Node> :: r != [] && r[0] == head && Ring(r)) <==> c !in q.shape.ring)
  {
    ghost var l := Snapshot(nodes);
    RetryKeepsShape(l, head, q, nodes);
    AddTail(head, c, [], nodes);
    if q.shape.Chain? && q.shape.whole {
      RingAfterRetry(head, q, nodes, l);
    }
  }

  // ---- Runs -----------------------------------------------------------------------------------

  /** One configuration is in hand at a time. */
  predicate Enabled(q: Queue, op: Op) {
    match op
    case Enqueue(_) => true
    case Take => q.hand == null
    case Publish => q.hand != null
    case Retry => q.hand != null
  }

  function Step(q: Queue, op: Op): Queue
    requires WellFormed(q) && Enabled(q, op)
  {
    match op
    case Enqueue(c) => EnqueueStep(q, c)
    case Take => TakeStep(q)
    case Publish => q.(hand := null)
    case Retry => RetryStep(q)
  }

  function Start(head: Node): Queue { Queue(Chain([head], false, true), {}, null) }

  /** The queue after `ops` from `q`; an operation that is not enabled does not happen. */
  function Run(q: Queue, ops: seq<Op>): (r: Queue)
    requires WellFormed(q)
    ensures WellFormed(r)
  {
    if ops == [] then q
    else
      var r, op := Run(q, ops[..|ops| - 1]), ops[|ops| - 1];
      if Enabled(r, op) then Step(r, op) else r
  }

  predicate Legal(q: Queue, ops: seq<Op>)
    requires WellFormed(q)
  {
    ops == [] || (Legal(q, ops[..|ops| - 1]) && Enabled(Run(q, ops[..|ops| - 1]), ops[|ops| - 1]))
  }

  /** What a take that found something returned. */
  function Got(q: Queue, op: Op): seq<Node>
    requires WellFormed(q)
  {
    if op.Take? && Taken(q) != null then [Taken(q)] else []
  }

  function Log(q: Queue, ops: seq<Op>): seq<Node>
    requires WellFormed(q)
  {
    if ops == [] then [] else Log(q, ops[..|ops| - 1]) + Got(Run(q, ops[..|ops| - 1]), ops[|ops| - 1])
  }

  method Serve(head: Node, hand: MaybeNode, op: Op, ghost q: Queue, ghost nodes: set<Node>)
    returns (hand': MaybeNode, got: seq<Node>)
    requires Holds(head, q, nodes) && q.hand == hand && Enabled(q, op) && (op.Enqueue? ==> op.c in nodes && op.c != head)
    modifies nodes
    ensures Holds(head, Step(q, op), nodes) && hand' == Step(q, op).hand && got == Got(q, op)
  {
    hand', got := hand, [];
    match op {
      case Enqueue(c) =>
        AddParameter(head, c, q, nodes);
      case Take =>
        hand' := GetFirstParameter(head, q, nodes);
        if hand' != null {
          got := [hand'];
        }
      case Publish =>
        hand' := null;
      case Retry =>
        RetryParameter(head, hand, q, nodes);
        hand' := null;
    }
  }

  /** The publishing thread and the event loop at work on the heap. */
  method ServeAll(head: Node, ops: seq<Op>, ghost nodes: set<Node>) returns (log: seq<Node>)
    requires Holds(head, Start(head), nodes) && Legal(Start(head), ops)
    requires forall op | op in ops && op.Enqueue? :: op.c in nodes && op.c != head
    modifies nodes
    ensures Holds(head, Run(Start(head), ops), nodes) && log == Log(Start(head), ops)
  {
    var hand: MaybeNode := null;
    ghost var q := Start(head);
    log := [];
    for i := 0 to |ops|
      invariant Holds(head, q, nodes) && hand == q.hand && q == Run(Start(head), ops[..i])
      invariant log == Log(Start(head), ops[..i])
    {
      OneMore(Start(head), ops, i);
      assert ops[i] in ops;
      var got;
      hand, got := Serve(head, hand, ops[i], q, nodes);
      log, q := log + got, Step(q, ops[i]);
    }
    assert ops[..|ops|] == ops;
  }

  lemma OneMore(q: Queue, ops: seq<Op>, i: nat)
    requires WellFormed(q) && Legal(q, ops) && i < |ops|
    ensures var r := Run(q, ops[..i]);
            && Enabled(r, ops[i]) && Run(q, ops[..i + 1]) == Step(r, ops[i])
            && Log(q, ops[..i + 1]) == Log(q, ops[..i]) + Got(r, ops[i])
  {
    LegalPrefix(q, ops, i + 1);
    assert ops[..i + 1][..i] == ops[..i];
  }

  lemma {:induction false} LegalPrefix(q: Queue, ops: seq<Op>, i: nat)
    requires WellFormed(q) && Legal(q, ops) && i <= |ops|
    ensures Legal(q, ops[..i])
  {
    if i < |ops| {
      LegalPrefix(q, ops[..|ops| - 1], i);
      assert ops[..|ops| - 1][..i] == ops[..i];
    } else {
      assert ops[..i] == ops;
    }
  }

  // ---- While no retry finds its configuration queued ---------------------------------------------

  predicate Clean(q: Queue, ops: seq<Op>)
    requires WellFormed(q)
  {
    ops == [] || (Clean(q, ops[..|ops| - 1]) && (ops[|ops| - 1].Retry? ==> !Requeued(Run(q, ops[..|ops| - 1]))))
  }

  /** What an operation appends. */
  function Put(q: Queue, op: Op): seq<Node>
    requires WellFormed(q)
  {
    if op.Enqueue? && q.shape.Chain? && op.c !in q.shape.ring && op.c !in q.dead then [op.c]
    else if op.Retry? && q.hand != null then [q.hand]
    else []
  }

  function Puts(q: Queue, ops: seq<Op>): seq<Node>
    requires WellFormed(q)
  {
    if ops == [] then [] else Puts(q, ops[..|ops| - 1]) + Put(Run(q, ops[..|ops| - 1]), ops[|ops| - 1])
  }

  /** Everything appended comes out once, in order, or is still queued. */
  lemma {:induction false} CleanRunsAreFifo(head: Node, ops: seq<Op>)
    requires Legal(Start(head), ops) && Clean(Start(head), ops)
    ensures var q := Run(Start(head), ops);
            && q.shape.Chain? && q.shape.whole && q.dead == {} && q.shape.ring[0] == head
            && Log(Start(head), ops) + q.shape.ring[1..] == Puts(Start(head), ops)
  {
    if ops != [] {
      var before, op := ops[..|ops| - 1], ops[|ops| - 1];
      CleanRunsAreFifo(head, before);
      CleanStep(Run(Start(head), before), op, Log(Start(head), before));
    }
  }

  lemma CleanStep(q: Queue, op: Op, log: seq<Node>)
    requires WellFormed(q) && q.shape.Chain? && q.shape.whole && q.dead == {}
    requires Enabled(q, op) && (op.Retry? ==> !Requeued(q))
    ensures var q' := Step(q, op);
            && q'.shape.Chain? && q'.shape.whole && q'.dead == {} && q'.shape.ring[0] == q.shape.ring[0]
            && log + Got(q, op) + q'.shape.ring[1..] == log + q.shape.ring[1..] + Put(q, op)
  {
  }

  // ---- Once one did ------------------------------------------------------------------------

  predicate Proper(q: Queue) {
    && WellFormed(q) && (q.hand != null ==> q.hand !in q.dead)
    && if q.shape.Stuck? then q.shape.n !in q.dead
       else Distinct(q.shape.ring) && q.shape.ring[0] != q.hand && forall n | n in q.shape.ring :: n !in q.dead
  }

  lemma EnqueueKeepsProper(q: Queue, c: Node)
    requires Proper(q)
    ensures Proper(EnqueueStep(q, c)) && EnqueueStep(q, c).dead == q.dead
  {
  }

  lemma TakeKeepsProper(q: Queue)
    requires Proper(q)
    ensures Proper(TakeStep(q)) && TakeStep(q).dead == q.dead && forall n | n in Got(q, Take) :: n !in q.dead
  {
  }

  lemma RetryKeepsProper(q: Queue)
    requires Proper(q) && Enabled(q, Retry)
    ensures Proper(RetryStep(q)) && q.dead <= RetryStep(q).dead
  {
  }

  lemma StepKeepsProper(q: Queue, op: Op)
    requires Proper(q) && Enabled(q, op)
    ensures Proper(Step(q, op)) && q.dead <= Step(q, op).dead && forall n | n in Got(q, op) :: n !in q.dead
  {
    match op
    case Enqueue(c) => EnqueueKeepsProper(q, c);
    case Take => TakeKeepsProper(q);
    case Publish =>
    case Retry => RetryKeepsProper(q);
  }

  /** A configuration that was cut off is never taken again, whatever follows. */
  lemma {:induction false} CutOffNeverTaken(q: Queue, ops: seq<Op>)
    requires Proper(q) && Legal(q, ops)
    ensures Proper(Run(q, ops)) && q.dead <= Run(q, ops).dead && forall n | n in Log(q, ops) :: n !in q.dead
  {
    if ops != [] {
      var before := ops[..|ops| - 1];
      CutOffNeverTaken(q, before);
      StepKeepsProper(Run(q, before), ops[|ops| - 1]);
    }
  }

  /** Once the first node cannot be unlinked, it is all the thread ever takes. */
  lemma {:induction false} StuckForever(q: Queue, ops: seq<Op>)
    requires q.shape.Stuck? && Legal(q, ops)
    ensures Run(q, ops).shape == q.shape && forall n | n in Log(q, ops) :: n == q.shape.n
  {
    if ops != [] {
      StuckForever(q, ops[..|ops| - 1]);
    }
  }

  /** The thread alone, publishing what it takes. */
  function Takes(m: nat): seq<Op> {
    if m == 0 then [] else Takes(m - 1) + [Take, Publish]
  }

  function Drop(ring: seq<Node>, m: nat): seq<Node>
    requires m < |ring|
  {
    [ring[0]] + ring[m + 1..]
  }

  lemma OneTake(q: Queue)
    requires WellFormed(q) && q.hand == null && Taken(q) != null
    ensures Run(q, [Take, Publish]) == TakeStep(q).(hand := null)
  {
    assert [Take, Publish][..1] == [Take] && [Take][..0] == [];
    assert Run(q, [Take]) == TakeStep(q);
  }

  lemma {:induction false} RunConcat(q: Queue, a: seq<Op>, b: seq<Op>)
    requires WellFormed(q)
    ensures Run(q, a + b) == Run(Run(q, a), b)
  {
    if b == [] {
      assert a + b == a;
    } else {
      RunConcat(q, a, b[..|b| - 1]);
      assert (a + b)[..|a + b| - 1] == a + b[..|b| - 1];
    }
  }

  /** A chain comes out in order, and sticks at its last node if that loops. */
  lemma {:induction false} ChainDrains(q: Queue, m: nat)
    requires WellFormed(q) && q.shape.Chain? && q.hand == null && m < |q.shape.ring|
    ensures var ring := q.shape.ring;
            Run(q, Takes(m)) == q.(shape := if q.shape.loops && m == |ring| - 1 then Stuck(ring[m])
                                            else Chain(Drop(ring, m), q.shape.loops, q.shape.whole))
  {
    var ring := q.shape.ring;
    if m == 0 {
      assert Drop(ring, 0) == ring;
    } else {
      RunConcat(q, Takes(m - 1), [Take, Publish]);
      ChainDrains(q, m - 1);
      var before := Drop(ring, m - 1);
      assert Rest(before) == Drop(ring, m) && before[1] == ring[m];
      OneTake(q.(shape := Chain(before, q.shape.loops, q.shape.whole)));
    }
  }

  /**
   What a retry costs when its configuration is queued again at position `j`: those behind it are cut off,
   and if there are none the thread, left alone, ends up taking this one for ever.
   */
  lemma RequeuedLoses(q: Queue)
    requires Proper(q) && Requeued(q)
    ensures var ring, c := q.shape.ring, q.hand; var j, r := IndexOf(ring, c), RetryStep(q);
            && Proper(r) && 1 <= j < |ring|
            && (forall i | j < i < |ring| :: ring[i] in r.dead)
            && (j == |ring| - 1 ==> Run(r, Takes(j)).shape == Stuck(c))
  {
    var ring, c := q.shape.ring, q.hand;
    var j, r := IndexOf(ring, c), RetryStep(q);
    StepKeepsProper(q, Retry);
    if j == |ring| - 1 {
      if j == 1 {
        assert Takes(0) == [];
        RunConcat(r, Takes(0), [Take, Publish]);
        OneTake(r);
      } else {
        ChainDrains(r, j);
        assert ring[..j + 1] == ring;
      }
    }
  }

  /** While the looping node waits, what is queued comes out in order, and the loop is gone once anything is appended. */
  lemma {:induction false} LoopingRun(q: Queue, ops: seq<Op>)
    requires Proper(q) && q.shape.Chain? && q.shape.loops && Legal(q, ops) && Clean(q, ops)
    requires q.shape.ring[|q.shape.ring| - 1] !in Log(q, ops)
    ensures var r := Run(q, ops);
            && r.shape.Chain? && r.shape.ring[0] == q.shape.ring[0] && r.dead == q.dead
            && (r.shape.loops <==> Puts(q, ops) == [])
            && Log(q, ops) + r.shape.ring[1..] == q.shape.ring[1..] + Puts(q, ops)
  {
    if ops == [] {
      assert [] + q.shape.ring[1..] == q.shape.ring[1..] + [];
    } else {
      var before, op := ops[..|ops| - 1], ops[|ops| - 1];
      LoopingRun(q, before);
      var r := Run(q, before);
      if r.shape.loops {
        LastStays(q.shape.ring, Log(q, before), r.shape.ring);
      }
      LoopingStep(r, op, Log(q, before), q.shape.ring[|q.shape.ring| - 1]);
      assert q.shape.ring[1..] + Puts(q, before) + Put(r, op) == q.shape.ring[1..] + (Puts(q, before) + Put(r, op));
    }
  }

  lemma LastStays(ring: seq<Node>, log: seq<Node>, rest: seq<Node>)
    requires |ring| > 1 && |rest| > 1 && log + rest[1..] == ring[1..]
    ensures rest[|rest| - 1] == ring[|ring| - 1]
  {
    assert (log + rest[1..])[|ring| - 2] == rest[|rest| - 1];
  }

  lemma LoopingStep(r: Queue, op: Op, log: seq<Node>, c: Node)
    requires WellFormed(r) && r.shape.Chain? && Enabled(r, op) && (op.Retry? ==> !Requeued(r))
    requires r.shape.loops ==> r.shape.ring[|r.shape.ring| - 1] == c
    requires c !in Got(r, op)
    ensures var r' := Step(r, op);
            && r'.shape.Chain? && r'.shape.ring[0] == r.shape.ring[0] && r'.dead == r.dead
            && (r'.shape.loops <==> r.shape.loops && Put(r, op) == [])
            && log + Got(r, op) + r'.shape.ring[1..] == log + r.shape.ring[1..] + Put(r, op)
  {
  }

  /**
   The take of a looping node leaves the list stuck if and only if nothing was appended since it loops;
   otherwise exactly what was appended is queued behind it.
   */
  lemma {:induction false} LoopSticksExactlyWhen(q: Queue, ops: seq<Op>)
    requires Proper(q) && q.shape.Chain? && q.shape.loops && Legal(q, ops) && Clean(q, ops)
    requires var c := q.shape.ring[|q.shape.ring| - 1]; c !in Log(q, ops) && Taken(Run(q, ops)) == c
    ensures var c, r := q.shape.ring[|q.shape.ring| - 1], TakeStep(Run(q, ops));
            && (r.shape == Stuck(c) <==> Puts(q, ops) == [])
            && (Puts(q, ops) != [] ==> r.shape == Chain([q.shape.ring[0]] + Puts(q, ops), false, r.shape.whole))
  {
    LoopingRun(q, ops);
    var ring, log, puts, r := q.shape.ring, Log(q, ops), Puts(q, ops), Run(q, ops);
    TakenAt(ring, log, r.shape.ring, puts);
  }

  /** Where the looping node is when it is taken. */
  lemma TakenAt(ring: seq<Node>, log: seq<Node>, rest: seq<Node>, puts: seq<Node>)
    requires |ring| > 1 && |rest| > 1 && Distinct(ring) && log + rest[1..] == ring[1..] + puts
    requires ring[|ring| - 1] !in log && rest[1] == ring[|ring| - 1]
    ensures rest[2..] == puts
  {
    var all, m := ring[1..] + puts, |ring| - 2;
    assert all == log + rest[1..] && all[m] == ring[|ring| - 1] && all[|log|] == rest[1];
    assert forall i | 0 <= i < m :: all[i] == ring[i + 1] && all[i] != all[m];
    assert |log| <= m ==> |log| == m;
    assert rest[2..] == all[m + 1..];
  }

  /** The smallest loss: a configuration requested again while it is set, the set fails, and nothing else is ever taken. */
  lemma LaterUpdateLost(head: Node, c: Node, d: Node, more: seq<Op>)
    requires head != c && head != d && c != d
    requires var ops := [Enqueue(c), Take, Enqueue(c), Retry, Enqueue(d)]; Legal(Run(Start(head), ops), more)
    ensures var ops := [Enqueue(c), Take, Enqueue(c), Retry, Enqueue(d)];
            && Legal(Start(head), ops) && Run(Start(head), ops).shape == Stuck(c)
            && d !in Log(Run(Start(head), ops), more)
  {
    var q0, e := Start(head), Enqueue(c);
    FirstSteps(head, c);
    RequestedAgain(head, c);
    Extend(q0, [e, Take, e], Retry);
    assert [e, Take, e] + [Retry] == [e, Take, e, Retry];
    Extend(q0, [e, Take, e, Retry], Enqueue(d));
    assert [e, Take, e, Retry] + [Enqueue(d)] == [e, Take, e, Retry, Enqueue(d)];
    StuckForever(Run(q0, [e, Take, e, Retry, Enqueue(d)]), more);
  }

  function Holding(head: Node, queued: seq<Node>, hand: MaybeNode): Queue {
    Queue(Chain([head] + queued, false, true), {}, hand)
  }

  lemma FirstSteps(head: Node, c: Node)
    requires head != c
    ensures EnqueueStep(Holding(head, [], null), c) == Holding(head, [c], null)
    ensures EnqueueStep(Holding(head, [], c), c) == Holding(head, [c], c)
    ensures TakeStep(Holding(head, [c], null)) == Holding(head, [], c)
    ensures RetryStep(Holding(head, [c], c)).shape == Stuck(c)
  {
    assert [head] + [] == [head] && [head] + [c] == [head, c];
    assert Rest([head, c]) == [head];
    assert IndexOf([head, c], c) == 1;
  }

  lemma RequestedAgain(head: Node, c: Node)
    requires head != c
    ensures var ops := [Enqueue(c), Take, Enqueue(c)];
            Legal(Start(head), ops) && Run(Start(head), ops) == Holding(head, [c], c)
  {
    var q0, e := Start(head), Enqueue(c);
    FirstSteps(head, c);
    assert q0 == Holding(head, [], null) && Legal(q0, []) && Run(q0, []) == q0;
    Extend(q0, [], e);
    assert [] + [e] == [e];
    Extend(q0, [e], Take);
    assert [e] + [Take] == [e, Take];
    Extend(q0, [e, Take], e);
    assert [e, Take] + [e] == [e, Take, e];
  }

  lemma Extend(q: Queue, ops: seq<Op>, op: Op)
    requires WellFormed(q) && Legal(q, ops) && Enabled(Run(q, ops), op)
    ensures Legal(q, ops + [op]) && Run(q, ops + [op]) == Step(Run(q, ops), op)
  {
    assert (ops + [op])[..|ops|] == ops;
  }
}
