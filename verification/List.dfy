/** The intrusive circular list of init, on the heap, refined to a sequence of its nodes. */
module Lists {

  class ListNode<T> {
    const data: T
    var next: ListNode<T>
    var prev: ListNode<T>

    /** A node alone in its ring. */
    constructor (data: T)
      ensures this.data == data && Ring([this])
    {
      this.data := data;
      next, prev := this, this;
    }
  }

  function After(i: nat, n: nat): nat {
    if i + 1 == n then 0 else i + 1
  }

  /** The nodes met when following `next` from the head, back to the head; `prev` runs the other way. */
  ghost predicate Ring<T>(s: seq<ListNode<T>>)
    reads s
  {
    && |s| > 0
    && (forall i, j | 0 <= i < j < |s| :: s[i] != s[j])
    && (forall i | 0 <= i < |s| :: s[i].next == s[After(i, |s|)])
    && (forall i | 0 <= i < |s| :: s[After(i, |s|)].prev == s[i])
  }

  /** Links `item` in front of the ring's `k`-th node; in front of the head means at the end. */
  method InsertBefore<T>(match_: ListNode<T>, item: ListNode<T>, ghost ring: seq<ListNode<T>>, ghost k: nat)
    requires Ring(ring) && item !in ring && 1 <= k <= |ring|
    requires match_ == if k == |ring| then ring[0] else ring[k]
    modifies item, match_, match_.prev
    ensures Ring(ring[..k] + [item] + ring[k..])
  {
    assert match_.prev == ring[k - 1] by { assert After(k - 1, |ring|) == if k == |ring| then 0 else k; }
    item.next := match_;
    item.prev := match_.prev;
    match_.prev.next := item;
    match_.prev := item;
    ghost var r := ring[..k] + [item] + ring[k..];
    forall i | 0 <= i < |r|
      ensures r[i].next == r[After(i, |r|)] && r[After(i, |r|)].prev == r[i]
    {
      if i != k - 1 && i != k {
        var at := if i < k then i else i - 1;
        assert r[i] == ring[at] && r[After(i, |r|)] == ring[After(at, |ring|)];
      }
    }
  }

  lemma StillDistinct<T>(s: seq<ListNode<T>>, k: nat)
    requires k < |s| && forall i, j | 0 <= i < j < |s| :: s[i] != s[j]
    ensures var r := s[..k] + s[k + 1..]; forall i, j | 0 <= i < j < |r| :: r[i] != r[j]
  {
    var r := s[..k] + s[k + 1..];
    assert forall i | 0 <= i < |r| :: r[i] == if i < k then s[i] else s[i + 1];
  }

  method Remove<T>(item: ListNode<T>, ghost ring: seq<ListNode<T>>, ghost k: nat)
    requires Ring(ring) && 1 <= k < |ring| && ring[k] == item
    modifies item.next, item.prev
    ensures Ring(ring[..k] + ring[k + 1..])
  {
    assert item.prev == ring[k - 1] by { assert After(k - 1, |ring|) == k; }
    assert item.next == ring[After(k, |ring|)];
    item.next.prev := item.prev;
    item.prev.next := item.next;
    ghost var r := ring[..k] + ring[k + 1..];
    StillDistinct(ring, k);
    forall i | 0 <= i < |r|
      ensures r[i].next == r[After(i, |r|)] && r[After(i, |r|)].prev == r[i]
    {
      if i < k - 1 {
        assert r[i] == ring[i] && r[After(i, |r|)] == ring[After(i, |ring|)];
      } else if i == k - 1 {
        assert r[i] == ring[i] && r[After(i, |r|)] == ring[After(k, |ring|)];
      } else {
        assert r[i] == ring[i + 1] && r[After(i, |r|)] == ring[After(i + 1, |ring|)];
      }
    }
  }

  // ---- Links as values ----------------------------------------------------------------------

  /** The links of a set of nodes, at one moment. */
  datatype Links<T> = Links(next: map<ListNode<T>, ListNode<T>>, prev: map<ListNode<T>, ListNode<T>>)

  function Next<T>(l: Links<T>, n: ListNode<T>): ListNode<T> { if n in l.next then l.next[n] else n }

  function Prev<T>(l: Links<T>, n: ListNode<T>): ListNode<T> { if n in l.prev then l.prev[n] else n }

  /** The four writes of an append, whatever the nodes are linked to. */
  function Appended<T>(l: Links<T>, head: ListNode<T>, item: ListNode<T>): Links<T> {
    var last := Prev(l, head);
    Links(l.next[item := head][last := item], l.prev[item := last][head := item])
  }

  ghost function Snapshot<T>(nodes: set<ListNode<T>>): Links<T>
    reads nodes
  {
    Links(map n | n in nodes :: n.next, map n | n in nodes :: n.prev)
  }

  ghost predicate Closed<T>(nodes: set<ListNode<T>>)
    reads nodes
  {
    forall n | n in nodes :: n.next in nodes && n.prev in nodes
  }

  method SetNext<T>(n: ListNode<T>, next: ListNode<T>, ghost nodes: set<ListNode<T>>)
    requires n in nodes && next in nodes && Closed(nodes)
    modifies n`next
    ensures Snapshot(nodes) == old(Snapshot(nodes)).(next := old(Snapshot(nodes)).next[n := next]) && Closed(nodes)
  {
    n.next := next;
  }

  method SetPrev<T>(n: ListNode<T>, prev: ListNode<T>, ghost nodes: set<ListNode<T>>)
    requires n in nodes && prev in nodes && Closed(nodes)
    modifies n`prev
    ensures Snapshot(nodes) == old(Snapshot(nodes)).(prev := old(Snapshot(nodes)).prev[n := prev]) && Closed(nodes)
  {
    n.prev := prev;
  }

  /** A ring, in terms of its links. */
  ghost predicate RingOf<T>(l: Links<T>, s: seq<ListNode<T>>) {
    && |s| > 0
    && (forall i, j | 0 <= i < j < |s| :: s[i] != s[j])
    && (forall i | 0 <= i < |s| :: Next(l, s[i]) == s[After(i, |s|)])
    && (forall i | 0 <= i < |s| :: Prev(l, s[After(i, |s|)]) == s[i])
  }

  lemma RingOnHeap<T>(s: seq<ListNode<T>>, nodes: set<ListNode<T>>)
    requires forall n | n in s :: n in nodes
    ensures Ring(s) <==> RingOf(Snapshot(nodes), s)
  {
    assert forall i | 0 <= i < |s| :: s[i] in nodes;
  }

  lemma AppendedRing<T>(l: Links<T>, head: ListNode<T>, item: ListNode<T>, s: seq<ListNode<T>>)
    requires RingOf(l, s) && s[0] == head && item !in s
    ensures RingOf(Appended(l, head, item), s + [item])
  {
    var l', r := Appended(l, head, item), s + [item];
    assert Prev(l, head) == s[|s| - 1] by { assert After(|s| - 1, |s|) == 0; }
    forall i | 0 <= i < |r|
      ensures Next(l', r[i]) == r[After(i, |r|)] && Prev(l', r[After(i, |r|)]) == r[i]
    {
      if i < |s| - 1 {
        assert r[i] == s[i] && r[After(i, |r|)] == s[After(i, |s|)];
      }
    }
  }

  /** The append tests nothing: on a ring without the node it is the longer ring, elsewhere just the four writes. */
  method AddTail<T>(head: ListNode<T>, item: ListNode<T>, ghost ring: seq<ListNode<T>>, ghost nodes: set<ListNode<T>>)
    requires head in nodes && item in nodes && item != head && Closed(nodes) && forall n | n in ring :: n in nodes
    modifies nodes
    ensures Snapshot(nodes) == Appended(old(Snapshot(nodes)), head, item) && Closed(nodes)
    ensures old(Ring(ring)) && ring[0] == head && item !in ring ==> Ring(ring + [item])
  {
    ghost var l := Snapshot(nodes);
    RingOnHeap(ring, nodes);
    SetNext(item, head, nodes);
    SetPrev(item, head.prev, nodes);
    SetNext(head.prev, item, nodes);
    SetPrev(head, item, nodes);
    RingOnHeap(ring + [item], nodes);
    if RingOf(l, ring) && ring[0] == head && item !in ring {
      AppendedRing(l, head, item, ring);
    }
  }

  // ---- Contents -------------------------------------------------------------------------

  /** What the nodes behind the head carry, in order. */
  function Contents<T>(ring: seq<ListNode<T>>): (s: seq<T>)
    requires |ring| > 0
    ensures |s| == |ring| - 1
  {
    seq(|ring| - 1, i requires 0 <= i < |ring| - 1 => ring[i + 1].data)
  }

  /** The first position whose element compares greater than `x`. */
  function Position<T>(s: seq<T>, x: T, compare: (T, T) -> int): (k: nat)
    ensures k <= |s|
  {
    if s == [] || compare(s[0], x) > 0 then 0 else 1 + Position(s[1..], x, compare)
  }

  lemma {:induction false} PositionAt<T>(s: seq<T>, x: T, compare: (T, T) -> int, k: nat)
    requires k <= |s| && forall i | 0 <= i < k :: compare(s[i], x) <= 0
    requires k == |s| || compare(s[k], x) > 0
    ensures Position(s, x, compare) == k
  {
    if k > 0 {
      PositionAt(s[1..], x, compare, k - 1);
    }
  }

  /** The node to insert in front of: the first that compares greater, or else the head. */
  method FindPlace<T>(head: ListNode<T>, x: T, compare: (T, T) -> int, ghost ring: seq<ListNode<T>>)
    returns (m: ListNode<T>, ghost k: nat)
    requires Ring(ring) && ring[0] == head
    ensures 1 <= k <= |ring| && m == if k == |ring| then head else ring[k]
    ensures k - 1 == Position(Contents(ring), x, compare)
    ensures m.prev == ring[k - 1]
  {
    m := head.next;
    k := 1;
    while m != head
      invariant 1 <= k <= |ring| && m == if k == |ring| then head else ring[k]
      invariant forall i | 1 <= i < k :: compare(ring[i].data, x) <= 0
      decreases |ring| - k
    {
      if compare(m.data, x) > 0 {
        break;
      }
      m := m.next;
      k := k + 1;
    }
    PositionAt(Contents(ring), x, compare, k - 1);
    assert After(k - 1, |ring|) == if k == |ring| then 0 else k;
  }

  lemma ContentsInserted<T>(ring: seq<ListNode<T>>, k: nat, item: ListNode<T>)
    requires 1 <= k <= |ring|
    ensures var r := ring[..k] + [item] + ring[k..]; var s := Contents(ring);
      && multiset(r) == multiset(ring) + multiset{item}
      && Contents(r) == s[..k - 1] + [item.data] + s[k - 1..]
  {
    assert ring == ring[..k] + ring[k..];
  }

  method AddWithOrder<T>(head: ListNode<T>, item: ListNode<T>, compare: (T, T) -> int, ghost ring: seq<ListNode<T>>)
    returns (ghost ring': seq<ListNode<T>>)
    requires Ring(ring) && ring[0] == head && item !in ring
    modifies ring, item
    ensures Ring(ring') && ring'[0] == head && multiset(ring') == multiset(ring) + multiset{item}
    ensures var s := Contents(ring); var k := Position(s, item.data, compare);
      Contents(ring') == s[..k] + [item.data] + s[k..]
  {
    var m, k := FindPlace(head, item.data, compare, ring);
    ContentsInserted(ring, k, item);
    InsertBefore(m, item, ring, k);
    ring' := ring[..k] + [item] + ring[k..];
  }

  /** The position of the first match, or the length without one. */
  function FirstMatch<T>(s: seq<T>, matches: T -> bool): (k: nat)
    ensures k <= |s| && (k < |s| ==> matches(s[k])) && forall i | 0 <= i < k :: !matches(s[i])
  {
    if s == [] || matches(s[0]) then 0 else 1 + FirstMatch(s[1..], matches)
  }

  lemma FirstMatchAt<T>(s: seq<T>, matches: T -> bool, k: nat)
    requires k <= |s| && (k < |s| ==> matches(s[k])) && forall i | 0 <= i < k :: !matches(s[i])
    ensures FirstMatch(s, matches) == k
  {
  }

  /** The first node that matches, or null. */
  method Find<T>(head: ListNode<T>, matches: T -> bool, ghost ring: seq<ListNode<T>>) returns (found: ListNode?<T>)
    requires Ring(ring) && ring[0] == head
    ensures var k := FirstMatch(Contents(ring), matches);
      found == if k == |Contents(ring)| then null else ring[k + 1]
  {
    var m := head.next;
    ghost var k := 0;
    while m != head
      invariant 0 <= k < |ring| && m == ring[After(k, |ring|)]
      invariant forall i | 0 <= i < k :: !matches(Contents(ring)[i])
      decreases |ring| - k
    {
      if matches(m.data) {
        FirstMatchAt(Contents(ring), matches, k);
        return m;
      }
      m := m.next;
      k := k + 1;
    }
    FirstMatchAt(Contents(ring), matches, k);
    return null;
  }

  method GetCnt<T>(head: ListNode<T>, ghost ring: seq<ListNode<T>>) returns (cnt: nat)
    requires Ring(ring) && ring[0] == head
    ensures cnt == |Contents(ring)|
  {
    cnt := 0;
    var node := head.next;
    while node != head
      invariant cnt <= |ring| - 1 && node == if cnt + 1 == |ring| then head else ring[cnt + 1]
      decreases |ring| - cnt
    {
      cnt := cnt + 1;
      node := node.next;
    }
  }

  // ---- Traversals -------------------------------------------------------------------------

  /** The elements for which `keep` holds, in order. */
  function Filter<T>(s: seq<T>, keep: T -> bool): seq<T> {
    if s == [] then []
    else Filter(s[..|s| - 1], keep) + (if keep(s[|s| - 1]) then [s[|s| - 1]] else [])
  }

  lemma Dropped<T>(kept: seq<T>, ring: seq<T>, k: nat)
    requires k < |ring|
    ensures var r := kept + ring[k..]; r[..|kept|] + r[|kept| + 1..] == kept + ring[k + 1..]
  {
  }

  lemma Kept<T>(kept: seq<ListNode<T>>, ring: seq<ListNode<T>>, k: nat)
    requires 1 <= k < |ring| && |kept| > 0
    ensures kept + ring[k..] == (kept + [ring[k]]) + ring[k + 1..]
    ensures Contents(kept + [ring[k]]) == Contents(kept) + [ring[k].data]
  {
  }

  /** What is kept stays the filtered part of what was visited. */
  lemma FilterVisited<T>(kept: seq<ListNode<T>>, ring: seq<ListNode<T>>, k: nat, keep: T -> bool)
    requires 1 <= k < |ring| && |kept| > 0 && Contents(kept) == Filter(Contents(ring)[..k - 1], keep)
    ensures Contents(if keep(ring[k].data) then kept + [ring[k]] else kept) == Filter(Contents(ring)[..k], keep)
  {
    var s := Contents(ring);
    assert s[..k][..k - 1] == s[..k - 1] && s[..k][k - 1] == ring[k].data;
    Kept(kept, ring, k);
  }

  method Drop<T>(m: ListNode<T>, ghost kept: seq<ListNode<T>>, ghost ring: seq<ListNode<T>>, ghost k: nat)
    requires |kept| > 0 && k < |ring| && ring[k] == m && Ring(kept + ring[k..])
    requires forall n | n in kept :: n in ring
    modifies ring
    ensures Ring(kept + ring[k + 1..])
  {
    ghost var whole := kept + ring[k..];
    assert whole[|kept|] == m;
    assert m.prev == whole[|kept| - 1] by { assert After(|kept| - 1, |whole|) == |kept|; }
    assert m.prev in kept && m.next in whole && m.prev in ring && m.next in ring;
    Remove(m, whole, |kept|);
    Dropped(kept, ring, k);
  }

  /** Up to the `k`-th node, the ring holds what is kept of the nodes visited, then the rest. */
  ghost predicate Removing<T>(ring: seq<ListNode<T>>, k: nat, kept: seq<ListNode<T>>, keep: T -> bool)
    reads kept, ring
  {
    && 1 <= k <= |ring| && |kept| > 0 && kept[0] == ring[0]
    && Ring(kept + ring[k..])
    && Contents(kept) == Filter(Contents(ring)[..k - 1], keep)
    && forall n | n in kept :: n in ring
  }

  method VisitForRemoval<T>(m: ListNode<T>, matches: T -> bool, ghost keep: T -> bool,
                            ghost ring: seq<ListNode<T>>, ghost k: nat, ghost kept: seq<ListNode<T>>)
    returns (next: ListNode<T>, ghost kept': seq<ListNode<T>>)
    requires k < |ring| && ring[k] == m && Removing(ring, k, kept, keep)
    requires forall x :: keep(x) <==> !matches(x)
    modifies ring
    ensures Removing(ring, k + 1, kept', keep)
    ensures next == ring[After(k, |ring|)]
  {
    ghost var whole := kept + ring[k..];
    assert whole[|kept|] == m && whole[After(|kept|, |whole|)] == ring[After(k, |ring|)];
    next := m.next;
    FilterVisited(kept, ring, k, keep);
    if matches(m.data) {
      Drop(m, kept, ring, k);
      kept' := kept;
    } else {
      Kept(kept, ring, k);
      kept' := kept + [m];
    }
  }

  /** A traversal that unlinks the nodes it visits when they match: it misses and keeps none of them. */
  method RemoveMatching<T>(head: ListNode<T>, matches: T -> bool, ghost ring: seq<ListNode<T>>)
    returns (ghost ring': seq<ListNode<T>>)
    requires Ring(ring) && ring[0] == head
    modifies ring
    ensures Ring(ring') && ring'[0] == head
    ensures Contents(ring') == Filter(Contents(ring), x => !matches(x))
    ensures forall n | n in ring' :: n in ring
  {
    ghost var keep := x => !matches(x);
    ghost var k := 1;
    ring' := [head];
    var m := head.next;
    assert Contents(ring)[..0] == [] && [head] + ring[1..] == ring;
    while m != head
      invariant Removing(ring, k, ring', keep) && m == ring[After(k - 1, |ring|)]
      decreases |ring| - k
    {
      m, ring' := VisitForRemoval(m, matches, keep, ring, k, ring');
      k := k + 1;
    }
    assert Contents(ring)[..k - 1] == Contents(ring) && ring' + ring[k..] == ring';
  }

  lemma FilterNext<T>(s: seq<T>, i: nat, keep: T -> bool)
    requires i < |s|
    ensures Filter(s[..i + 1], keep) == Filter(s[..i], keep) + (if keep(s[i]) then [s[i]] else [])
  {
    assert s[..i + 1][..i] == s[..i];
  }

  /** What a traversal visits: everything up to the first error if it stops there. */
  function Visited<T>(s: seq<T>, run: T -> int, stop: bool): seq<T> {
    if s == [] then [] else if stop && run(s[0]) != 0 then [s[0]] else [s[0]] + Visited(s[1..], run, stop)
  }

  function Reverse<T>(s: seq<T>): (r: seq<T>)
    ensures |r| == |s|
  {
    seq(|s|, i requires 0 <= i < |s| => s[|s| - 1 - i])
  }

  /** The first error if the traversal stops at errors, otherwise zero. */
  function Outcome<T>(s: seq<T>, run: T -> int, stop: bool): int {
    if s == [] then 0 else if stop && run(s[0]) != 0 then run(s[0]) else Outcome(s[1..], run, stop)
  }

  /** Where the `k`-th visited node sits in a ring of `n`; after the last one comes the head. */
  function VisitIndex(n: nat, reverse: bool, k: nat): (i: nat)
    requires k < n
    ensures i < n
  {
    if k == n - 1 then 0 else if reverse then n - 1 - k else k + 1
  }

  lemma VisitNext<T>(ring: seq<ListNode<T>>, reverse: bool, k: nat)
    requires Ring(ring) && k + 1 < |ring|
    ensures var m := ring[VisitIndex(|ring|, reverse, k)];
      (if reverse then m.prev else m.next) == ring[VisitIndex(|ring|, reverse, k + 1)]
  {
    if reverse {
      assert After(|ring| - 2 - k, |ring|) == |ring| - 1 - k;
    }
  }

  lemma VisitFirst<T>(ring: seq<ListNode<T>>, reverse: bool)
    requires Ring(ring)
    ensures (if reverse then ring[0].prev else ring[0].next) == ring[VisitIndex(|ring|, reverse, 0)]
  {
    assert After(|ring| - 1, |ring|) == 0;
  }

  /** The contents in the order of a traversal. */
  function InOrder<T>(ring: seq<ListNode<T>>, reverse: bool): (s: seq<T>)
    requires |ring| > 0
    ensures |s| == |ring| - 1
  {
    if reverse then Reverse(Contents(ring)) else Contents(ring)
  }

  lemma VisitData<T>(ring: seq<ListNode<T>>, reverse: bool, k: nat)
    requires k + 1 < |ring|
    ensures InOrder(ring, reverse)[k] == ring[VisitIndex(|ring|, reverse, k)].data
  {
  }

  lemma VisitEnds<T>(ring: seq<ListNode<T>>, reverse: bool, k: nat)
    requires Ring(ring) && k < |ring|
    ensures ring[VisitIndex(|ring|, reverse, k)] == ring[0] <==> k == |ring| - 1
  {
  }

  /**
   * Runs a procedure that leaves the list alone on each node, forwards or backwards,
   * stopping at the first error when asked.
   */
  method Traversal<T>(head: ListNode<T>, run: T -> int, reverse: bool, stop: bool, ghost ring: seq<ListNode<T>>)
    returns (ret: int, log: seq<T>)
    requires Ring(ring) && ring[0] == head
    ensures log == Visited(InOrder(ring, reverse), run, stop) && ret == Outcome(InOrder(ring, reverse), run, stop)
  {
    ghost var s, k := InOrder(ring, reverse), 0;
    log := [];
    var m := if reverse then head.prev else head.next;
    VisitFirst(ring, reverse);
    VisitEnds(ring, reverse, 0);
    TraversalStarts(s, run, stop);
    while m != head
      invariant 0 <= k <= |s| && m == ring[VisitIndex(|ring|, reverse, k)] && (m == head <==> k == |s|)
      invariant TraversalAt(s, run, stop, k, log)
      decreases |s| - k
    {
      VisitData(ring, reverse, k);
      VisitNext(ring, reverse, k);
      VisitEnds(ring, reverse, k + 1);
      var next := if reverse then m.prev else m.next;
      TraversalStep(s, run, stop, k, log);
      ret := run(m.data);
      log := log + [m.data];
      if ret != 0 && stop {
        return;
      }
      m := next;
      k := k + 1;
    }
    TraversalEnds(s, run, stop, log);
    return 0, log;
  }

  // ---- A traversal under way ------------------------------------------------------------------

  /** The first `k` elements are logged and none of them ended the traversal. */
  ghost predicate TraversalAt<T>(s: seq<T>, run: T -> int, stop: bool, k: nat, log: seq<T>) {
    && k <= |s|
    && Visited(s, run, stop) == log + Visited(s[k..], run, stop)
    && Outcome(s, run, stop) == Outcome(s[k..], run, stop)
  }

  lemma TraversalStarts<T>(s: seq<T>, run: T -> int, stop: bool)
    ensures TraversalAt(s, run, stop, 0, [])
  {
    assert s[0..] == s;
  }

  lemma TraversalStep<T>(s: seq<T>, run: T -> int, stop: bool, k: nat, log: seq<T>)
    requires TraversalAt(s, run, stop, k, log) && k < |s|
    ensures if stop && run(s[k]) != 0
            then Visited(s, run, stop) == log + [s[k]] && Outcome(s, run, stop) == run(s[k])
            else TraversalAt(s, run, stop, k + 1, log + [s[k]])
  {
    assert s[k..][1..] == s[k + 1..] && s[k..][0] == s[k];
    assert log + ([s[k]] + Visited(s[k + 1..], run, stop)) == (log + [s[k]]) + Visited(s[k + 1..], run, stop);
  }

  lemma TraversalEnds<T>(s: seq<T>, run: T -> int, stop: bool, log: seq<T>)
    requires TraversalAt(s, run, stop, |s|, log)
    ensures Visited(s, run, stop) == log && Outcome(s, run, stop) == 0
  {
    assert s[|s|..] == [] && log + [] == log;
  }
}
