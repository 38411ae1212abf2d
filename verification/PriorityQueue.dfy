/** The six-level priority queue of init, refined to one stably ordered sequence. */
module PriorityQueues {

  const PRIORITY_COUNT := 6
  const MAX_CAPACITY := 1024

  /** Data is a pointer; zero is the null pointer. */
  datatype Node = Node(data: nat, priority: nat, sequenceId: nat, tag: nat)

  // ---- The ordered sequence ---------------------------------------------------------------

  /** Behind everything of at least its priority, ahead of the rest. */
  function Insert(s: seq<Node>, n: Node): (r: seq<Node>)
    ensures |r| == |s| + 1
  {
    if s == [] || s[0].priority < n.priority then [n] + s
    else [s[0]] + Insert(s[1..], n)
  }

  predicate Before(a: Node, b: Node) {
    a.priority > b.priority || (a.priority == b.priority && a.sequenceId < b.sequenceId)
  }

  /** Highest priority first, oldest first within a priority; all older than `next`. */
  ghost predicate Ordered(s: seq<Node>, next: nat) {
    && (forall i, j | 0 <= i < j < |s| :: Before(s[i], s[j]))
    && (forall i | 0 <= i < |s| :: s[i].sequenceId < next)
  }

  lemma {:induction false} InsertMembers(s: seq<Node>, n: Node)
    ensures multiset(Insert(s, n)) == multiset(s) + multiset{n}
  {
    if s != [] && s[0].priority >= n.priority {
      InsertMembers(s[1..], n);
      assert s == [s[0]] + s[1..];
    }
  }

  lemma {:induction false} InsertKeepsOrder(s: seq<Node>, n: Node, next: nat)
    requires Ordered(s, next) && n.sequenceId == next
    ensures Ordered(Insert(s, n), next + 1)
  {
    if s != [] && s[0].priority >= n.priority {
      var rest := Insert(s[1..], n);
      InsertKeepsOrder(s[1..], n, next);
      InsertMembers(s[1..], n);
      forall k | 0 <= k < |rest|
        ensures Before(s[0], rest[k])
      {
        assert rest[k] in multiset(rest);
        if rest[k] != n {
          assert rest[k] in s[1..];
        }
      }
    }
  }

  // ---- Runs ---------------------------------------------------------------------------------

  datatype Op = Push(data: nat, priority: int, tag: nat, allocOk: bool) | Pop

  predicate Accepts(s: seq<Node>, data: nat, priority: int, capacity: nat) {
    data != 0 && 0 <= priority < PRIORITY_COUNT && |s| < capacity
  }

  /** The queue and the next sequence number after a push; a failed allocation uses one up. */
  function PushStep(s: seq<Node>, next: nat, data: nat, priority: int, tag: nat, allocOk: bool, capacity: nat)
    : (seq<Node>, nat)
  {
    if !Accepts(s, data, priority, capacity) then (s, next)
    else if !allocOk then (s, next + 1)
    else (Insert(s, Node(data, priority, next, tag)), next + 1)
  }

  /** The queue, the next sequence number, and every node accepted and handed out so far. */
  datatype State = State(queue: seq<Node>, next: nat, pushed: seq<Node>, popped: seq<Node>)

  function Step(s: State, op: Op, capacity: nat): State {
    match op
    case Push(data, priority, tag, allocOk) =>
      var (queue, next) := PushStep(s.queue, s.next, data, priority, tag, allocOk, capacity);
      var more := if Accepts(s.queue, data, priority, capacity) && allocOk
                  then [Node(data, priority, s.next, tag)] else [];
      State(queue, next, s.pushed + more, s.popped)
    case Pop =>
      if s.queue == [] then s
      else State(s.queue[1..], s.next, s.pushed, s.popped + [s.queue[0]])
  }

  function Run(ops: seq<Op>, capacity: nat): State {
    if ops == [] then State([], 0, [], []) else Step(Run(ops[..|ops| - 1], capacity), ops[|ops| - 1], capacity)
  }

  /** The sequence numbers follow the order of arrival. */
  ghost predicate Arrivals(pushed: seq<Node>, next: nat) {
    && (forall i, j | 0 <= i < j < |pushed| :: pushed[i].sequenceId < pushed[j].sequenceId)
    && (forall i | 0 <= i < |pushed| :: pushed[i].sequenceId < next)
  }

  /** Within a priority, what was handed out is older than what still waits. */
  ghost predicate Served(popped: seq<Node>, queue: seq<Node>) {
    forall x, y | x in popped && y in queue && x.priority == y.priority :: x.sequenceId < y.sequenceId
  }

  ghost predicate Sound(s: State, capacity: nat) {
    && Ordered(s.queue, s.next) && |s.queue| <= capacity
    && multiset(s.pushed) == multiset(s.popped) + multiset(s.queue)
    && Arrivals(s.pushed, s.next) && Served(s.popped, s.queue)
  }

  lemma PushKeepsServed(s: State, n: Node, capacity: nat)
    requires Sound(s, capacity) && n.sequenceId == s.next
    ensures Served(s.popped, Insert(s.queue, n))
  {
    InsertMembers(s.queue, n);
    forall x, y | x in s.popped && y in Insert(s.queue, n) && x.priority == y.priority
      ensures x.sequenceId < y.sequenceId
    {
      assert y in multiset(Insert(s.queue, n)) && x in multiset(s.pushed);
      if y == n {
        assert x in s.pushed;
      } else {
        assert y in s.queue;
      }
    }
  }

  lemma PopKeepsServed(s: State, capacity: nat)
    requires Sound(s, capacity) && s.queue != []
    ensures Served(s.popped + [s.queue[0]], s.queue[1..])
  {
    forall x, y | x in s.popped + [s.queue[0]] && y in s.queue[1..] && x.priority == y.priority
      ensures x.sequenceId < y.sequenceId
    {
      var k :| 0 <= k < |s.queue[1..]| && s.queue[1..][k] == y;
      assert s.queue[k + 1] == y && y in s.queue;
      assert Before(s.queue[0], s.queue[k + 1]);
    }
  }

  lemma PopKeepsSound(s: State, capacity: nat)
    requires Sound(s, capacity) && s.queue != []
    ensures Sound(Step(s, Pop, capacity), capacity)
  {
    PopKeepsServed(s, capacity);
    assert s.queue == [s.queue[0]] + s.queue[1..];
  }

  lemma PushKeepsSound(s: State, n: Node, capacity: nat)
    requires Sound(s, capacity) && n.sequenceId == s.next && |s.queue| < capacity
    ensures Sound(State(Insert(s.queue, n), s.next + 1, s.pushed + [n], s.popped), capacity)
  {
    InsertKeepsOrder(s.queue, n, s.next);
    InsertMembers(s.queue, n);
    PushKeepsServed(s, n, capacity);
  }

  lemma StepKeepsSound(s: State, op: Op, capacity: nat)
    requires Sound(s, capacity)
    ensures Sound(Step(s, op, capacity), capacity)
  {
    match op
    case Push(data, priority, tag, allocOk) =>
      assert s.pushed + [] == s.pushed;
      if Accepts(s.queue, data, priority, capacity) && allocOk {
        PushKeepsSound(s, Node(data, priority, s.next, tag), capacity);
      }
    case Pop =>
      if s.queue != [] {
        PopKeepsSound(s, capacity);
      }
  }

  /** Over every run: ordered, within capacity, nothing lost, nothing handed out twice, nobody overtaken. */
  lemma {:induction false} RunIsSound(ops: seq<Op>, capacity: nat)
    ensures Sound(Run(ops, capacity), capacity)
  {
    if ops != [] {
      RunIsSound(ops[..|ops| - 1], capacity);
      StepKeepsSound(Run(ops[..|ops| - 1], capacity), ops[|ops| - 1], capacity);
    }
  }

  /** Whatever the run, the next pop takes the oldest node of the highest priority present. */
  lemma {:induction false} PopTakesOldestOfHighest(ops: seq<Op>, capacity: nat, other: Node)
    requires Run(ops, capacity).queue != [] && other in Run(ops, capacity).queue
    ensures var s := Run(ops, capacity); var taken := s.queue[0];
      && Run(ops + [Pop], capacity).popped == s.popped + [taken]
      && (other == taken || Before(taken, other))
  {
    RunIsSound(ops, capacity);
    assert (ops + [Pop])[..|ops|] == ops;
  }

  /**
   * After any run, a push is taken exactly when it carries data, names one of the six priorities, and finds
   * room and memory; the node taken is the newest, and one not taken leaves the queue as it was.
   */
  lemma {:induction false} PushTakenExactlyWhen(ops: seq<Op>, capacity: nat, data: nat, priority: int, tag: nat,
                                                allocOk: bool)
    ensures var s := Run(ops, capacity); var s' := Run(ops + [Push(data, priority, tag, allocOk)], capacity);
      && s'.popped == s.popped
      && (if data != 0 && 0 <= priority <= 5 && |s.queue| < capacity && allocOk
          then
            && |s'.pushed| == |s.pushed| + 1 && s'.pushed[..|s.pushed|] == s.pushed
            && var n := s'.pushed[|s.pushed|];
              n.data == data && n.priority == priority && n.tag == tag
              && n !in s.pushed && n in s'.queue && |s'.queue| == |s.queue| + 1
          else s'.queue == s.queue && s'.pushed == s.pushed)
  {
    RunIsSound(ops, capacity);
    assert (ops + [Push(data, priority, tag, allocOk)])[..|ops|] == ops;
    var s := Run(ops, capacity);
    if Accepts(s.queue, data, priority, capacity) && allocOk {
      var n := Node(data, priority, s.next, tag);
      InsertMembers(s.queue, n);
      assert n in multiset(Insert(s.queue, n));
    }
  }

  /** First come, first served within a priority: nobody is handed out before one that arrived earlier. */
  lemma {:induction false} NobodyOvertakes(ops: seq<Op>, capacity: nat, i: nat, j: nat)
    requires var s := Run(ops, capacity);
      i < j < |s.pushed| && s.pushed[i].priority == s.pushed[j].priority && s.pushed[j] in s.popped
    ensures var s := Run(ops, capacity); s.pushed[i] in s.popped && s.pushed[i] !in s.queue
  {
    RunIsSound(ops, capacity);
    var s := Run(ops, capacity);
    assert s.pushed[i] in multiset(s.pushed);
    assert s.pushed[i] in multiset(s.popped) + multiset(s.queue);
  }

  // ---- The levels -----------------------------------------------------------------------------

  /** The lists of levels below `k`, highest first. */
  function Flatten(levels: seq<seq<Node>>, k: nat): seq<Node>
    requires k <= |levels|
  {
    if k == 0 then [] else levels[k - 1] + Flatten(levels, k - 1)
  }

  ghost predicate Level(l: seq<Node>, priority: nat, next: nat) {
    && (forall i | 0 <= i < |l| :: l[i].priority == priority && l[i].sequenceId < next)
    && (forall i, j | 0 <= i < j < |l| :: l[i].sequenceId < l[j].sequenceId)
  }

  lemma {:induction false} InsertBehind(front: seq<Node>, back: seq<Node>, n: Node)
    requires forall i | 0 <= i < |front| :: front[i].priority >= n.priority
    ensures Insert(front + back, n) == front + Insert(back, n)
  {
    if front == [] {
      assert front + back == back;
    } else {
      InsertBehind(front[1..], back, n);
      assert (front + back)[1..] == front[1..] + back;
      assert [front[0]] + (front[1..] + Insert(back, n)) == front + Insert(back, n);
    }
  }

  lemma {:induction false} FlattenBelow(levels: seq<seq<Node>>, k: nat, p: nat, next: nat)
    requires k <= p < |levels| && forall i | 0 <= i < |levels| :: Level(levels[i], i, next)
    ensures forall i | 0 <= i < |Flatten(levels, k)| :: Flatten(levels, k)[i].priority < p
  {
    if k > 0 {
      FlattenBelow(levels, k - 1, p, next);
    }
  }

  lemma {:induction false} FlattenSame(levels: seq<seq<Node>>, k: nat, p: nat, l: seq<Node>)
    requires k <= p < |levels|
    ensures Flatten(levels[p := l], k) == Flatten(levels, k)
  {
    if k > 0 {
      FlattenSame(levels, k - 1, p, l);
    }
  }

  /** Appending to one level is the stable insertion into the whole. */
  lemma {:induction false} AppendIsInsert(levels: seq<seq<Node>>, k: nat, n: Node, next: nat)
    requires n.priority < k <= |levels| && forall i | 0 <= i < |levels| :: Level(levels[i], i, next)
    ensures Flatten(levels[n.priority := levels[n.priority] + [n]], k) == Insert(Flatten(levels, k), n)
  {
    var p := n.priority;
    var l := levels[p] + [n];
    if k - 1 == p {
      var below := Flatten(levels, p);
      FlattenSame(levels, p, p, l);
      FlattenBelow(levels, p, p, next);
      InsertInFront(below, n);
      assert Level(levels[p], p, next);
      InsertBehind(levels[p], below, n);
      assert l + below == levels[p] + ([n] + below);
    } else {
      AppendIsInsert(levels, k - 1, n, next);
      assert Level(levels[k - 1], k - 1, next);
      InsertBehind(levels[k - 1], Flatten(levels, k - 1), n);
      assert levels[p := l][k - 1] == levels[k - 1];
    }
  }

  lemma InsertInFront(s: seq<Node>, n: Node)
    requires forall i | 0 <= i < |s| :: s[i].priority < n.priority
    ensures Insert(s, n) == [n] + s
  {
  }

  lemma {:induction false} FirstNonEmpty(levels: seq<seq<Node>>, k: nat, i: nat)
    requires i < k <= |levels| && levels[i] != [] && forall j | i < j < k :: levels[j] == []
    ensures Flatten(levels, k) == levels[i] + Flatten(levels, i)
    ensures Flatten(levels[i := levels[i][1..]], k) == Flatten(levels, k)[1..]
    decreases k
  {
    FlattenSame(levels, i, i, levels[i][1..]);
    if k - 1 > i {
      FirstNonEmpty(levels, k - 1, i);
    }
  }

  lemma {:induction false} AllEmpty(levels: seq<seq<Node>>, k: nat)
    requires k <= |levels| && forall j | 0 <= j < k :: levels[j] == []
    ensures Flatten(levels, k) == []
  {
    if k > 0 {
      AllEmpty(levels, k - 1);
    }
  }

  class PriorityQueue {
    var levels: seq<seq<Node>>
    var totalCount: nat
    var nextSequenceId: nat
    const maxCapacity: nat

    ghost predicate Valid()
      reads this
    {
      && |levels| == PRIORITY_COUNT
      && (forall i | 0 <= i < PRIORITY_COUNT :: Level(levels[i], i, nextSequenceId))
      && totalCount == |Flatten(levels, PRIORITY_COUNT)| <= maxCapacity <= MAX_CAPACITY
    }

    ghost function View(): seq<Node>
      requires |levels| == PRIORITY_COUNT
      reads this
    {
      Flatten(levels, PRIORITY_COUNT)
    }

    constructor (capacity: nat)
      requires 0 < capacity <= MAX_CAPACITY
      ensures Valid() && View() == [] && nextSequenceId == 0 && maxCapacity == capacity
    {
      levels := [[], [], [], [], [], []];
      totalCount, nextSequenceId, maxCapacity := 0, 0, capacity;
      new;
      AllEmpty(levels, PRIORITY_COUNT);
    }

    /** Walks to the first later node of the level; there is none, so the node goes last. */
    method InsertSorted(n: Node)
      requires Valid() && n.priority < PRIORITY_COUNT && n.sequenceId == nextSequenceId
      modifies this`levels
      ensures levels == old(levels)[n.priority := old(levels[n.priority]) + [n]]
    {
      var list := levels[n.priority];
      assert Level(list, n.priority, nextSequenceId);
      var pos := 0;
      while pos < |list|
        invariant 0 <= pos <= |list|
      {
        if list[pos].sequenceId > n.sequenceId {
          break;
        }
        pos := pos + 1;
      }
      assert list[..pos] + [n] + list[pos..] == list + [n];
      levels := levels[n.priority := list[..pos] + [n] + list[pos..]];
    }

    /** The effect of a push on the ordered sequence. */
    method Push(data: nat, priority: int, tag: nat, allocOk: bool) returns (r: int)
      requires Valid()
      modifies this
      ensures Valid()
      ensures r == if Accepts(old(View()), data, priority, maxCapacity) && allocOk then 0 else -1
      ensures (View(), nextSequenceId)
           == PushStep(old(View()), old(nextSequenceId), data, priority, tag, allocOk, maxCapacity)
    {
      if data == 0 || !(0 <= priority < PRIORITY_COUNT) || totalCount >= maxCapacity {
        return -1;
      }
      if !allocOk {
        nextSequenceId := nextSequenceId + 1;
        return -1;
      }
      var n := Node(data, priority, nextSequenceId, tag);
      AppendIsInsert(levels, PRIORITY_COUNT, n, nextSequenceId);
      InsertSorted(n);
      nextSequenceId := nextSequenceId + 1;
      totalCount := totalCount + 1;
      return 0;
    }

    /** The level of the first node in order, or minus one. */
    method HighestLevel() returns (i: int)
      requires Valid()
      ensures i == -1 ==> View() == []
      ensures i != -1 ==> 0 <= i < PRIORITY_COUNT && levels[i] != [] && forall j | i < j < PRIORITY_COUNT :: levels[j] == []
    {
      i := PRIORITY_COUNT - 1;
      while i >= 0
        invariant -1 <= i < PRIORITY_COUNT
        invariant forall j | i < j < PRIORITY_COUNT :: levels[j] == []
      {
        if levels[i] != [] {
          return;
        }
        i := i - 1;
      }
      AllEmpty(levels, PRIORITY_COUNT);
    }

    method Pop() returns (data: nat)
      requires Valid()
      modifies this`levels, this`totalCount
      ensures Valid()
      ensures old(View()) == [] ==> data == 0 && View() == []
      ensures old(View()) != [] ==> data == old(View()[0].data) && View() == old(View()[1..])
    {
      var i := HighestLevel();
      if i < 0 {
        return 0;
      }
      FirstNonEmpty(levels, PRIORITY_COUNT, i);
      data := levels[i][0].data;
      levels := levels[i := levels[i][1..]];
      totalCount := totalCount - 1;
    }

    method Peek() returns (data: nat)
      requires Valid()
      ensures data == if View() == [] then 0 else View()[0].data
    {
      var i := HighestLevel();
      if i < 0 {
        return 0;
      }
      FirstNonEmpty(levels, PRIORITY_COUNT, i);
      data := levels[i][0].data;
    }
  }

  /** A queue for one to 1024 nodes, or none. */
  method InitPriorityQueue(maxCapacity: nat) returns (r: int, queue: PriorityQueue?)
    ensures r == if 1 <= maxCapacity <= 1024 then 0 else -1
    ensures r == 0 <==> queue != null
    ensures queue != null ==>
      fresh(queue) && queue.Valid() && queue.View() == [] && queue.nextSequenceId == 0 && queue.maxCapacity == maxCapacity
  {
    if maxCapacity == 0 || maxCapacity > MAX_CAPACITY {
      return -1, null;
    }
    queue := new PriorityQueue(maxCapacity);
    r := 0;
  }
}
