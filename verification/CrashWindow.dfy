/**
 Crash windows over a plain sequence of crash times, independent of any service record.
 A window opens with a crash and takes every later crash until one comes more than
 `limit` seconds after the opening one; that crash opens the next window.
 */
module CrashWindow {

  /** The index of the crash that opened the window of the last crash. */
  function WindowStart(ts: seq<nat>, limit: nat): (w: nat)
    requires ts != []
    ensures w < |ts|
  {
    if |ts| == 1 then 0
    else
      var w := WindowStart(ts[..|ts| - 1], limit);
      if ts[|ts| - 1] - ts[w] > limit then |ts| - 1 else w
  }

  /** How many crashes the current window holds. */
  function WindowCount(ts: seq<nat>, limit: nat): nat {
    if ts == [] then 0 else |ts| - WindowStart(ts, limit)
  }

  predicate Sorted(ts: seq<nat>) {
    forall i, j | 0 <= i <= j < |ts| :: ts[i] <= ts[j]
  }

  lemma WindowAppend(ts: seq<nat>, t: nat, limit: nat)
    ensures WindowStart(ts + [t], limit)
         == if ts == [] then 0 else var w := WindowStart(ts, limit); if t - ts[w] > limit then |ts| else w
  {
    assert (ts + [t])[..|ts|] == ts;
  }

  lemma SortedAppend(ts: seq<nat>, t: nat)
    requires Sorted(ts) && forall i | 0 <= i < |ts| :: ts[i] <= t
    ensures Sorted(ts + [t]) && forall i | 0 <= i <= |ts| :: (ts + [t])[i] <= t
  {
  }

  /** Every crash of the current window is within `limit` of its first one. */
  lemma {:induction false} WindowSpan(ts: seq<nat>, limit: nat)
    requires ts != [] && Sorted(ts)
    ensures ts[|ts| - 1] - ts[WindowStart(ts, limit)] <= limit
  {
    if |ts| > 1 && WindowStart(ts, limit) != |ts| - 1 {
      assert WindowStart(ts, limit) == WindowStart(ts[..|ts| - 1], limit);
    }
  }

  /** A window that opens after the first crash opens more than `limit` after the one before it. */
  lemma {:induction false} WindowGap(ts: seq<nat>, limit: nat)
    requires ts != [] && Sorted(ts)
    ensures var w := WindowStart(ts, limit);
            w > 0 ==> ts[w] - ts[WindowStart(ts[..w], limit)] > limit
  {
    if |ts| > 1 {
      var before := ts[..|ts| - 1];
      var w := WindowStart(ts, limit);
      if w < |ts| - 1 {
        WindowGap(before, limit);
        assert before[..w] == ts[..w];
      }
    }
  }

  /**
   A full burst cannot stay below the count limit: among `2n - 2` consecutive crashes
   that fall within `limit` seconds, some window reaches `n` crashes.
   */
  lemma {:induction false} BurstFillsWindow(ts: seq<nat>, limit: nat, n: nat)
    requires n >= 2 && |ts| >= 2 * n - 2 && Sorted(ts)
    requires ts[|ts| - 1] - ts[|ts| - (2 * n - 2)] <= limit
    ensures exists k :: 0 < k <= |ts| && WindowCount(ts[..k], limit) >= n
  {
    assert ts[..|ts|] == ts;
    if WindowCount(ts, limit) < n {
      var i := |ts| - (2 * n - 2);
      var w := WindowStart(ts, limit);
      assert w > i;
      WindowGap(ts, limit);
      var v := WindowStart(ts[..w], limit);
      assert ts[v] < ts[i];
      assert v < i;
      assert WindowCount(ts[..w], limit) >= n;
    }
  }

  /** A window reached `n` crashes, so the last `n` crashes lie within `limit` seconds. */
  lemma {:induction false} WindowIsBurst(ts: seq<nat>, limit: nat, n: nat)
    requires 0 < n <= WindowCount(ts, limit) && Sorted(ts)
    ensures n <= |ts| && ts[|ts| - 1] - ts[|ts| - n] <= limit
  {
    WindowSpan(ts, limit);
    assert ts[WindowStart(ts, limit)] <= ts[|ts| - n];
  }
}
