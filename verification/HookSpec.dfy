/** Hook stages as values: the effect of adding, deleting and executing hooks over whole runs. */
module HookSpec {

  import opened Int32
  import opened Lists

  const ERR_NO_HOOK_STAGE := -1000

  /** Function and cookie are pointers; a zero function is the null pointer. */
  datatype Hook = Hook(prio: int, function_: nat, cookie: nat)

  datatype Stage = Stage(id: int, hooks: seq<Hook>)

  // ---- One stage ----------------------------------------------------------------------------

  function ComparePrio(a: Hook, b: Hook): int {
    a.prio - b.prio
  }

  /** Behind everything of no greater priority value, ahead of the rest. */
  function Insert(s: seq<Hook>, h: Hook): seq<Hook> {
    var k := Position(s, h, ComparePrio);
    s[..k] + [h] + s[k..]
  }

  ghost predicate Sorted(s: seq<Hook>) {
    forall i, j | 0 <= i < j < |s| :: s[i].prio <= s[j].prio
  }

  ghost predicate Unique(s: seq<Hook>) {
    forall i, j | 0 <= i < j < |s| :: s[i] != s[j]
  }

  /** Insertion one by one, in the order given. */
  function Sort(s: seq<Hook>): seq<Hook> {
    if s == [] then [] else Insert(Sort(s[..|s| - 1]), s[|s| - 1])
  }

  lemma {:induction false} PositionSplits(s: seq<Hook>, h: Hook)
    ensures var k := Position(s, h, ComparePrio);
      && (forall i | 0 <= i < k :: s[i].prio <= h.prio)
      && (k == |s| || s[k].prio > h.prio)
  {
    if s != [] && ComparePrio(s[0], h) <= 0 {
      PositionSplits(s[1..], h);
    }
  }

  lemma InsertKeepsOrder(s: seq<Hook>, h: Hook)
    requires Sorted(s)
    ensures Sorted(Insert(s, h))
  {
    var k := Position(s, h, ComparePrio);
    PositionSplits(s, h);
    assert forall j | k <= j < |s| :: s[j].prio > h.prio;
    var r := Insert(s, h);
    forall i, j | 0 <= i < j < |r|
      ensures r[i].prio <= r[j].prio
    {
      assert r[i] == if i < k then s[i] else if i == k then h else s[i - 1];
      assert r[j] == if j < k then s[j] else if j == k then h else s[j - 1];
    }
  }

  lemma InsertMembers(s: seq<Hook>, h: Hook)
    ensures multiset(Insert(s, h)) == multiset(s) + multiset{h}
  {
    var k := Position(s, h, ComparePrio);
    assert s == s[..k] + s[k..];
  }

  lemma SortAppend(s: seq<Hook>, h: Hook)
    ensures Sort(s + [h]) == Insert(Sort(s), h)
  {
    assert (s + [h])[..|s|] == s;
  }

  lemma {:induction false} SortIsOrdered(s: seq<Hook>)
    ensures Sorted(Sort(s)) && multiset(Sort(s)) == multiset(s)
  {
    if s != [] {
      var init, h := s[..|s| - 1], s[|s| - 1];
      SortIsOrdered(init);
      InsertKeepsOrder(Sort(init), h);
      InsertMembers(Sort(init), h);
      assert s == init + [h];
    }
  }

  // ---- Priorities far apart ------------------------------------------------------------------

  /** The comparison with the 32-bit difference that the machine computes. */
  function ComparePrio32(a: Hook, b: Hook): int {
    Wrap32(a.prio - b.prio)
  }

  function Insert32(s: seq<Hook>, h: Hook): seq<Hook> {
    var k := Position(s, h, ComparePrio32);
    s[..k] + [h] + s[k..]
  }

  function Sort32(s: seq<Hook>): seq<Hook> {
    if s == [] then [] else Insert32(Sort32(s[..|s| - 1]), s[|s| - 1])
  }

  /** No hook differs from one added later by more than a 32-bit number holds. */
  ghost predicate Near(s: seq<Hook>) {
    forall i, j | 0 <= i < j < |s| :: Fits32(s[i].prio - s[j].prio)
  }

  lemma {:induction false} SamePosition(s: seq<Hook>, h: Hook)
    requires forall i | 0 <= i < |s| :: Fits32(s[i].prio - h.prio)
    ensures Position(s, h, ComparePrio32) == Position(s, h, ComparePrio)
  {
    if s != [] {
      SamePosition(s[1..], h);
    }
  }

  /** Among priorities that are near each other the machine's comparison sorts as the exact one does. */
  lemma {:induction false} Sort32IsSort(s: seq<Hook>)
    requires Near(s)
    ensures Sort32(s) == Sort(s)
  {
    if s != [] {
      var init, h := s[..|s| - 1], s[|s| - 1];
      Sort32IsSort(init);
      SortIsOrdered(init);
      forall i | 0 <= i < |Sort(init)|
        ensures Fits32(Sort(init)[i].prio - h.prio)
      {
        assert Sort(init)[i] in multiset(init);
      }
      SamePosition(Sort(init), h);
    }
  }

  lemma SortOfTwo(a: Hook, b: Hook)
    ensures Sort32([a, b]) == if ComparePrio32(a, b) > 0 then [b, a] else [a, b]
  {
    assert [a, b][..1] == [a] && [a][..0] == [];
    assert Sort32([a]) == [a] && [a][1..] == [];
  }

  /** The sign of the 32-bit difference tells the order if and only if the difference fits. */
  lemma SignExactlyWhen(x: int, y: int)
    requires Fits32(x) && Fits32(y)
    ensures (if Wrap32(x - y) > 0 then y <= x else x <= y) <==> Fits32(x - y)
  {
    WrapOfDifference(x, y);
  }

  lemma OrderOfTwo(x: Hook, y: Hook)
    ensures (Sorted([x, y]) <==> x.prio <= y.prio) && (Near([x, y]) <==> Fits32(x.prio - y.prio))
  {
    var s := [x, y];
    assert s[0] == x && s[1] == y;
  }

  /** Two hooks are put in order if and only if they are near. */
  lemma TwoHooksExactlyWhen(a: Hook, b: Hook)
    requires Fits32(a.prio) && Fits32(b.prio)
    ensures Sorted(Sort32([a, b])) <==> Near([a, b])
  {
    SortOfTwo(a, b);
    OrderOfTwo(a, b);
    OrderOfTwo(b, a);
    SignExactlyWhen(a.prio, b.prio);
  }

  /** The smallest such pair. */
  lemma FarHooksRunBackwards(f: nat, g: nat)
    ensures var a, b := Hook(0x7FFF_FFFF, f, 0), Hook(-1, g, 0); !Near([a, b]) && Sort32([a, b]) == [a, b]
  {
    var a, b := Hook(0x7FFF_FFFF, f, 0), Hook(-1, g, 0);
    OrderOfTwo(a, b);
    SortOfTwo(a, b);
    WrapOfDifference(a.prio, b.prio);
  }

  // ---- Filtering ----------------------------------------------------------------------------

  lemma {:induction false} FilterConcat<T>(a: seq<T>, b: seq<T>, keep: T -> bool)
    ensures Filter(a + b, keep) == Filter(a, keep) + Filter(b, keep)
  {
    if b == [] {
      assert a + b == a;
    } else {
      FilterConcat(a, b[..|b| - 1], keep);
      assert (a + b)[..|a + b| - 1] == a + b[..|b| - 1];
    }
  }

  lemma {:induction false} FilterMembers<T(!new)>(s: seq<T>, keep: T -> bool)
    ensures forall x :: x in Filter(s, keep) <==> x in s && keep(x)
  {
    if s != [] {
      FilterMembers(s[..|s| - 1], keep);
      assert s == s[..|s| - 1] + [s[|s| - 1]];
    }
  }

  lemma {:induction false} FilterNone<T>(s: seq<T>, keep: T -> bool)
    requires forall i | 0 <= i < |s| :: !keep(s[i])
    ensures Filter(s, keep) == []
  {
    if s != [] {
      FilterNone(s[..|s| - 1], keep);
    }
  }

  lemma FilterInsert(s: seq<Hook>, h: Hook, keep: Hook -> bool)
    ensures var k := Position(s, h, ComparePrio);
      && Filter(Insert(s, h), keep) == Filter(s[..k], keep) + (if keep(h) then [h] else []) + Filter(s[k..], keep)
      && Filter(s, keep) == Filter(s[..k], keep) + Filter(s[k..], keep)
  {
    var k := Position(s, h, ComparePrio);
    FilterConcat(s[..k] + [h], s[k..], keep);
    FilterConcat(s[..k], [h], keep);
    FilterConcat(s[..k], s[k..], keep);
    assert s == s[..k] + s[k..];
    assert Filter([h], keep) == if keep(h) then [h] else [] by { assert [h][..0] == []; }
  }

  lemma InsertIsStable(s: seq<Hook>, h: Hook, p: int, keep: Hook -> bool)
    requires Sorted(s) && forall x :: keep(x) <==> x.prio == p
    ensures Filter(Insert(s, h), keep) == Filter(s, keep) + (if keep(h) then [h] else [])
  {
    var k := Position(s, h, ComparePrio);
    FilterInsert(s, h, keep);
    if keep(h) {
      NoneBehind(s, h, keep);
    }
    EmptyParts(Filter(s[..k], keep), Filter(s[k..], keep), h);
  }

  lemma NoneBehind(s: seq<Hook>, h: Hook, keep: Hook -> bool)
    requires Sorted(s) && forall x :: keep(x) <==> x.prio == h.prio
    ensures Filter(s[Position(s, h, ComparePrio)..], keep) == []
  {
    var k := Position(s, h, ComparePrio);
    PositionSplits(s, h);
    assert forall i | k <= i < |s| :: s[i].prio > h.prio;
    FilterNone(s[k..], keep);
  }

  lemma EmptyParts<T>(a: seq<T>, b: seq<T>, x: T)
    ensures a + [x] + [] == a + [] + [x] && a + [] + b == a + b && a + [] == a && a + b + [] == a + b
  {
  }

  /** Sorting is stable: hooks of one priority stay in the order they were added. */
  lemma {:induction false} SortIsStable(s: seq<Hook>, p: int, keep: Hook -> bool)
    requires forall h :: keep(h) <==> h.prio == p
    ensures Filter(Sort(s), keep) == Filter(s, keep)
  {
    if s != [] {
      SortIsStable(s[..|s| - 1], p, keep);
      SortIsOrdered(s[..|s| - 1]);
      InsertIsStable(Sort(s[..|s| - 1]), s[|s| - 1], p, keep);
    }
  }

  /** A hook goes between those of no greater priority value and the rest. */
  lemma InsertBetween(front: seq<Hook>, back: seq<Hook>, h: Hook)
    requires (forall i | 0 <= i < |front| :: front[i].prio <= h.prio) && forall i | 0 <= i < |back| :: back[i].prio > h.prio
    ensures Insert(front + back, h) == front + [h] + back
  {
    PositionAt(front + back, h, ComparePrio, |front|);
    assert (front + back)[..|front|] == front && (front + back)[|front|..] == back;
  }

  /** Deleting leaves what came before the place of a hook before it, and the rest behind it. */
  lemma DeleteAround(s: seq<Hook>, h: Hook, keep: Hook -> bool)
    requires Sorted(s)
    ensures var k := Position(s, h, ComparePrio); var front, back := Filter(s[..k], keep), Filter(s[k..], keep);
      (forall i | 0 <= i < |front| :: front[i].prio <= h.prio) && forall i | 0 <= i < |back| :: back[i].prio > h.prio
  {
    var k := Position(s, h, ComparePrio);
    var front, back := Filter(s[..k], keep), Filter(s[k..], keep);
    PositionSplits(s, h);
    assert forall j | k <= j < |s| :: s[j].prio > h.prio;
    FilterMembers(s[..k], keep);
    FilterMembers(s[k..], keep);
    forall i | 0 <= i < |front|
      ensures front[i].prio <= h.prio
    {
      assert front[i] in s[..k];
    }
    forall i | 0 <= i < |back|
      ensures back[i].prio > h.prio
    {
      assert back[i] in s[k..];
    }
  }

  /** Where a hook goes does not depend on the hooks that a deletion takes away. */
  lemma InsertThenDelete(s: seq<Hook>, h: Hook, keep: Hook -> bool)
    requires Sorted(s)
    ensures Filter(Insert(s, h), keep) == if keep(h) then Insert(Filter(s, keep), h) else Filter(s, keep)
  {
    var k := Position(s, h, ComparePrio);
    var front, back := Filter(s[..k], keep), Filter(s[k..], keep);
    FilterInsert(s, h, keep);
    DeleteAround(s, h, keep);
    InsertBetween(front, back, h);
    EmptyParts(front, back, h);
  }

  /** Deleting from the sorted stage is sorting what is left. */
  lemma {:induction false} SortThenDelete(s: seq<Hook>, keep: Hook -> bool)
    ensures Filter(Sort(s), keep) == Sort(Filter(s, keep))
  {
    if s != [] {
      var init, h := s[..|s| - 1], s[|s| - 1];
      SortThenDelete(init, keep);
      SortIsOrdered(init);
      InsertThenDelete(Sort(init), h, keep);
      SortAppend(Filter(init, keep), h);
      assert Filter(s, keep) == if keep(h) then Filter(init, keep) + [h] else Filter(init, keep);
    }
  }
}
