/** The hook manager over whole runs, against a map from stage to hooks in order of arrival. */
module HookRuns {

  import opened Options
  import opened Lists
  import opened HookSpec

  /** The default manager, created by the first hook added. */
  datatype Mgr = Absent | Present(stages: seq<Stage>)

  /** Which allocations of an addition succeed, should they be made. */
  datatype Alloc = Alloc(mgr: bool, stage: bool, item: bool)

  datatype Op = Add(stage: int, hook: Hook, alloc: Alloc) | Del(stage: int, function_: nat)

  // ---- Steps ----------------------------------------------------------------------------------

  function FindStage(stages: seq<Stage>, id: int): (i: nat)
    ensures i <= |stages|
    ensures i < |stages| ==> stages[i].id == id
    ensures forall k | 0 <= k < i :: stages[k].id != id
  {
    if stages == [] || stages[0].id == id then 0 else 1 + FindStage(stages[1..], id)
  }

  function AddToStage(stages: seq<Stage>, i: nat, hook: Hook, itemOk: bool): (seq<Stage>, int)
    requires i < |stages|
  {
    var stage := stages[i];
    if hook in stage.hooks then (stages, 0)
    else if !itemOk then (stages, -1)
    else (stages[i := Stage(stage.id, Insert(stage.hooks, hook))], 0)
  }

  function AddStep(m: Mgr, id: int, hook: Hook, alloc: Alloc): (Mgr, int) {
    if hook.function_ == 0 || (m.Absent? && !alloc.mgr) then (m, -1) else
    var stages := if m.Absent? then [] else m.stages;
    var i := FindStage(stages, id);
    if i == |stages| && !alloc.stage then (Present(stages), -1) else
    var with_ := if i == |stages| then stages + [Stage(id, [])] else stages;
    var (stages', r) := AddToStage(with_, i, hook, alloc.item);
    (Present(stages'), r)
  }

  function Other(function_: nat): Hook -> bool {
    (h: Hook) => h.function_ != function_
  }

  /** A null function deletes the whole stage. */
  function DelStep(m: Mgr, id: int, function_: nat): Mgr {
    if m.Absent? then m else
    var i := FindStage(m.stages, id);
    if i == |m.stages| then m
    else if function_ != 0 then
      Present(m.stages[i := Stage(id, Filter(m.stages[i].hooks, Other(function_)))])
    else Present(m.stages[..i] + m.stages[i + 1..])
  }

  function Step(m: Mgr, op: Op): Mgr {
    match op
    case Add(id, hook, alloc) => AddStep(m, id, hook, alloc).0
    case Del(id, function_) => DelStep(m, id, function_)
  }

  function Run(ops: seq<Op>): Mgr {
    if ops == [] then Absent else Step(Run(ops[..|ops| - 1]), ops[|ops| - 1])
  }

  // ---- The reference ----------------------------------------------------------------------------

  /** Per stage, the hooks in the order they came. */
  datatype Ref = Ref(present: bool, live: map<int, seq<Hook>>)

  function RefAdd(r: Ref, id: int, hook: Hook, alloc: Alloc): (Ref, int) {
    if hook.function_ == 0 || (!r.present && !alloc.mgr) then (r, -1)
    else if id !in r.live && !alloc.stage then (Ref(true, r.live), -1) else
    var hooks := if id in r.live then r.live[id] else [];
    if hook in hooks then (Ref(true, r.live[id := hooks]), 0)
    else if !alloc.item then (Ref(true, r.live[id := hooks]), -1)
    else (Ref(true, r.live[id := hooks + [hook]]), 0)
  }

  function RefDel(r: Ref, id: int, function_: nat): Ref {
    if id !in r.live then r
    else if function_ != 0 then Ref(r.present, r.live[id := Filter(r.live[id], Other(function_))])
    else Ref(r.present, r.live - {id})
  }

  function RefStep(r: Ref, op: Op): Ref {
    match op
    case Add(id, hook, alloc) => RefAdd(r, id, hook, alloc).0
    case Del(id, function_) => RefDel(r, id, function_)
  }

  function RefRun(ops: seq<Op>): Ref {
    if ops == [] then Ref(false, map[]) else RefStep(RefRun(ops[..|ops| - 1]), ops[|ops| - 1])
  }

  // ---- Refinement ---------------------------------------------------------------------------------

  function Lookup(stages: seq<Stage>, id: int): Option<seq<Hook>> {
    var i := FindStage(stages, id);
    if i == |stages| then None else Some(stages[i].hooks)
  }

  function RefLookup(live: map<int, seq<Hook>>, id: int): Option<seq<Hook>> {
    if id in live then Some(Sort(live[id])) else None
  }

  ghost predicate UniqueIds(stages: seq<Stage>) {
    forall i, j | 0 <= i < j < |stages| :: stages[i].id != stages[j].id
  }

  /** Each stage once, holding the stable sort by priority of its hooks in order of arrival. */
  ghost predicate Agrees(stages: seq<Stage>, live: map<int, seq<Hook>>) {
    && UniqueIds(stages)
    && (forall id :: Lookup(stages, id) == RefLookup(live, id))
    && (forall id | id in live :: Unique(live[id]))
  }

  ghost predicate Refines(m: Mgr, r: Ref) {
    r.present == m.Present? && Agrees(if m.Absent? then [] else m.stages, r.live)
  }

  lemma FoundAt(stages: seq<Stage>, i: nat)
    requires UniqueIds(stages) && i < |stages|
    ensures FindStage(stages, stages[i].id) == i
  {
    assert FindStage(stages, stages[i].id) <= i;
  }

  lemma LookupReplaced(stages: seq<Stage>, i: nat, hooks: seq<Hook>, id: int)
    requires UniqueIds(stages) && i < |stages|
    ensures var t := stages[i := Stage(stages[i].id, hooks)];
      UniqueIds(t) && Lookup(t, id) == if id == stages[i].id then Some(hooks) else Lookup(stages, id)
  {
    var t := stages[i := Stage(stages[i].id, hooks)];
    assert UniqueIds(t);
    var k := FindStage(stages, id);
    if k < |stages| {
      FoundAt(stages, k);
      FoundAt(t, k);
      assert t[k].id == id;
    }
  }

  lemma LookupAppended(stages: seq<Stage>, new_: int, id: int)
    requires UniqueIds(stages) && FindStage(stages, new_) == |stages|
    ensures var t := stages + [Stage(new_, [])];
      && UniqueIds(t) && FindStage(t, new_) == |stages|
      && Lookup(t, id) == if id == new_ then Some([]) else Lookup(stages, id)
  {
    var t := stages + [Stage(new_, [])];
    assert UniqueIds(t);
    FoundAt(t, |stages|);
    var k := FindStage(stages, id);
    if k < |stages| {
      FoundAt(t, k);
    }
  }

  lemma RemovedUnique(stages: seq<Stage>, i: nat)
    requires UniqueIds(stages) && i < |stages|
    ensures var t := stages[..i] + stages[i + 1..];
      && UniqueIds(t) && (forall k | 0 <= k < |t| :: t[k].id != stages[i].id)
      && forall k | 0 <= k < |t| :: t[k] == if k < i then stages[k] else stages[k + 1]
  {
    var t := stages[..i] + stages[i + 1..];
    assert forall k | 0 <= k < |t| :: t[k] == if k < i then stages[k] else stages[k + 1];
  }

  lemma LookupRemoved(stages: seq<Stage>, i: nat, id: int)
    requires UniqueIds(stages) && i < |stages|
    ensures var t := stages[..i] + stages[i + 1..];
      UniqueIds(t) && Lookup(t, id) == if id == stages[i].id then None else Lookup(stages, id)
  {
    var t := stages[..i] + stages[i + 1..];
    RemovedUnique(stages, i);
    var k := FindStage(stages, id);
    if k < |stages| && k != i {
      FoundAt(t, if k < i then k else k - 1);
    }
  }

  lemma SortHasSame(s: seq<Hook>, h: Hook)
    ensures h in Sort(s) <==> h in s
  {
    SortIsOrdered(s);
    assert h in multiset(Sort(s)) <==> h in multiset(s);
  }

  /** Replacing one stage's hooks keeps the agreement when its history is replaced alike. */
  lemma AgreesReplaced(stages: seq<Stage>, live: map<int, seq<Hook>>, i: nat, hooks: seq<Hook>)
    requires Agrees(stages, live) && i < |stages| && Unique(hooks)
    ensures Agrees(stages[i := Stage(stages[i].id, Sort(hooks))], live[stages[i].id := hooks])
  {
    var t, live' := stages[i := Stage(stages[i].id, Sort(hooks))], live[stages[i].id := hooks];
    LookupReplaced(stages, i, Sort(hooks), 0);
    forall id
      ensures Lookup(t, id) == RefLookup(live', id)
    {
      LookupReplaced(stages, i, Sort(hooks), id);
      assert Lookup(stages, id) == RefLookup(live, id);
    }
  }

  lemma AgreesAppended(stages: seq<Stage>, live: map<int, seq<Hook>>, new_: int)
    requires Agrees(stages, live) && FindStage(stages, new_) == |stages|
    ensures new_ !in live && FindStage(stages + [Stage(new_, [])], new_) == |stages|
    ensures Agrees(stages + [Stage(new_, [])], live[new_ := []])
  {
    assert Lookup(stages, new_) == RefLookup(live, new_);
    LookupAppended(stages, new_, new_);
    forall id
      ensures Lookup(stages + [Stage(new_, [])], id) == RefLookup(live[new_ := []], id)
    {
      LookupAppended(stages, new_, id);
      assert Lookup(stages, id) == RefLookup(live, id);
    }
  }

  lemma AgreesRemoved(stages: seq<Stage>, live: map<int, seq<Hook>>, i: nat)
    requires Agrees(stages, live) && i < |stages|
    ensures Agrees(stages[..i] + stages[i + 1..], live - {stages[i].id})
  {
    var t, live' := stages[..i] + stages[i + 1..], live - {stages[i].id};
    LookupRemoved(stages, i, 0);
    forall id
      ensures Lookup(t, id) == RefLookup(live', id)
    {
      LookupRemoved(stages, i, id);
      assert Lookup(stages, id) == RefLookup(live, id);
    }
  }

  /** The history of the stage found at `i`. */
  lemma FoundIsLive(stages: seq<Stage>, live: map<int, seq<Hook>>, id: int)
    requires Agrees(stages, live)
    ensures var i := FindStage(stages, id);
      if i == |stages| then id !in live
      else id in live && stages[i] == Stage(id, Sort(live[id])) && Unique(live[id])
  {
    assert Lookup(stages, id) == RefLookup(live, id);
  }

  lemma AddToStageAgrees(stages: seq<Stage>, live: map<int, seq<Hook>>, id: int, hook: Hook, itemOk: bool)
    requires Agrees(stages, live) && id in live
    ensures FindStage(stages, id) < |stages|
    ensures var (stages', ret) := AddToStage(stages, FindStage(stages, id), hook, itemOk);
      var hooks := if hook in live[id] || !itemOk then live[id] else live[id] + [hook];
      && Agrees(stages', live[id := hooks])
      && ret == if hook in live[id] || itemOk then 0 else -1
  {
    FoundIsLive(stages, live, id);
    SortHasSame(live[id], hook);
    if hook !in live[id] && itemOk {
      SortAppend(live[id], hook);
      AgreesReplaced(stages, live, FindStage(stages, id), live[id] + [hook]);
    } else {
      assert live[id := live[id]] == live;
    }
  }

  lemma AddRefines(m: Mgr, r: Ref, id: int, hook: Hook, alloc: Alloc)
    requires Refines(m, r)
    ensures Refines(AddStep(m, id, hook, alloc).0, RefAdd(r, id, hook, alloc).0)
    ensures AddStep(m, id, hook, alloc).1 == RefAdd(r, id, hook, alloc).1
  {
    var stages := if m.Absent? then [] else m.stages;
    FoundIsLive(stages, r.live, id);
    if hook.function_ != 0 && (m.Present? || alloc.mgr) {
      if id in r.live {
        AddToStageAgrees(stages, r.live, id, hook, alloc.item);
      } else if alloc.stage {
        AgreesAppended(stages, r.live, id);
        AddToStageAgrees(stages + [Stage(id, [])], r.live[id := []], id, hook, alloc.item);
        assert r.live[id := []][id := [] + [hook]] == r.live[id := [] + [hook]];
        assert r.live[id := []][id := []] == r.live[id := []];
      }
    }
  }

  lemma {:induction false} FilterUnique(s: seq<Hook>, keep: Hook -> bool)
    requires Unique(s)
    ensures Unique(Filter(s, keep))
  {
    if s != [] {
      var init := s[..|s| - 1];
      FilterUnique(init, keep);
      FilterMembers(init, keep);
      assert s[|s| - 1] !in init;
      assert forall i | 0 <= i < |Filter(init, keep)| :: Filter(init, keep)[i] in init;
    }
  }

  lemma DelRefines(m: Mgr, r: Ref, id: int, function_: nat)
    requires Refines(m, r)
    ensures Refines(DelStep(m, id, function_), RefDel(r, id, function_))
  {
    if m.Present? {
      FoundIsLive(m.stages, r.live, id);
      var i := FindStage(m.stages, id);
      if i < |m.stages| {
        if function_ != 0 {
          SortThenDelete(r.live[id], Other(function_));
          FilterUnique(r.live[id], Other(function_));
          AgreesReplaced(m.stages, r.live, i, Filter(r.live[id], Other(function_)));
        } else {
          AgreesRemoved(m.stages, r.live, i);
        }
      }
    } else {
      FoundIsLive([], r.live, id);
    }
  }

  /**
   * Over every run of additions and deletions: stages are unique, and each holds the stable
   * sort by priority of exactly the hooks still registered for it, none of them twice.
   */
  lemma {:induction false} StagesAreStableSorts(ops: seq<Op>)
    ensures Refines(Run(ops), RefRun(ops))
  {
    if ops != [] {
      var init := ops[..|ops| - 1];
      StagesAreStableSorts(init);
      match ops[|ops| - 1]
      case Add(id, hook, alloc) => AddRefines(Run(init), RefRun(init), id, hook, alloc);
      case Del(id, function_) => DelRefines(Run(init), RefRun(init), id, function_);
    }
  }

  // ---- Execution ------------------------------------------------------------------------------------

  function Direct(s: seq<Hook>, reverse: bool): seq<Hook> {
    if reverse then Reverse(s) else s
  }

  /** The hooks run, and the result: minus one without a manager, its own error without the stage. */
  function Execute(m: Mgr, id: int, run: Hook -> int, reverse: bool, stop: bool): (int, seq<Hook>) {
    if m.Absent? then (-1, []) else
    match Lookup(m.stages, id)
    case None => (ERR_NO_HOOK_STAGE, [])
    case Some(hooks) => (Outcome(Direct(hooks, reverse), run, stop), Visited(Direct(hooks, reverse), run, stop))
  }

  lemma {:induction false} VisitedUpToError(s: seq<Hook>, run: Hook -> int, stop: bool)
    ensures var n := |Visited(s, run, stop)|;
      && n <= |s| && Visited(s, run, stop) == s[..n]
      && (!stop ==> n == |s| && Outcome(s, run, stop) == 0)
      && (stop ==> forall i | 0 <= i < n - 1 :: run(s[i]) == 0)
      && (stop && n < |s| ==> n > 0 && run(s[n - 1]) != 0)
      && (stop && n > 0 ==> Outcome(s, run, stop) == run(s[n - 1]))
  {
    if s != [] {
      VisitedUpToError(s[1..], run, stop);
    }
  }

  predicate InStage(live: map<int, seq<Hook>>, id: int, h: Hook) {
    id in live && h in live[id]
  }

  lemma RunAppend(ops: seq<Op>, op: Op)
    ensures Run(ops + [op]) == Step(Run(ops), op) && RefRun(ops + [op]) == RefStep(RefRun(ops), op)
  {
    assert (ops + [op])[..|ops|] == ops;
  }

  /** What is registered once `hook` has been added to `live`, and what the addition answers. */
  predicate Registers(live: map<int, seq<Hook>>, present: bool, id: int, hook: Hook, alloc: Alloc,
                      live': map<int, seq<Hook>>, r: int, other: int, h: Hook) {
    && (r == 0 || r == -1)
    && (r == 0 <==>
      && hook.function_ != 0 && (present || alloc.mgr)
      && (id in live || alloc.stage) && (InStage(live, id, hook) || alloc.item))
    && (InStage(live', other, h) <==> InStage(live, other, h) || (r == 0 && other == id && h == hook))
    && (id in live ==> id in live' && live[id] <= live'[id])
  }

  lemma RefAddRegisters(r: Ref, id: int, hook: Hook, alloc: Alloc, other: int, h: Hook)
    ensures var (r', ret) := RefAdd(r, id, hook, alloc);
      Registers(r.live, r.present, id, hook, alloc, r'.live, ret, other, h)
  {
  }

  /**
   * After any run, adding a hook is answered by zero exactly when it has a function and every allocation it
   * needs succeeds. It is then registered, behind all that were before it; nothing else changes.
   */
  lemma {:induction false} AddRegisters(ops: seq<Op>, id: int, hook: Hook, alloc: Alloc, other: int, h: Hook)
    ensures Registers(RefRun(ops).live, Run(ops).Present?, id, hook, alloc,
                      RefRun(ops + [Add(id, hook, alloc)]).live, AddStep(Run(ops), id, hook, alloc).1, other, h)
  {
    StagesAreStableSorts(ops);
    RunAppend(ops, Add(id, hook, alloc));
    AddRefines(Run(ops), RefRun(ops), id, hook, alloc);
    RefAddRegisters(RefRun(ops), id, hook, alloc, other, h);
  }

  /** After any run, deleting a function takes its hooks out of the stage, and deleting no function all of them. */
  lemma {:induction false} DelUnregisters(ops: seq<Op>, id: int, function_: nat, other: int, h: Hook)
    ensures var live := RefRun(ops).live; var live' := RefRun(ops + [Del(id, function_)]).live;
      && (InStage(live', other, h)
          <==> InStage(live, other, h) && !(other == id && (function_ == 0 || h.function_ == function_)))
      && (function_ == 0 ==> id !in live')
  {
    RunAppend(ops, Del(id, function_));
    if id in RefRun(ops).live {
      FilterMembers(RefRun(ops).live[id], Other(function_));
    }
  }

  /** After any run, executing a stage that is not there runs nothing and says which of two errors it met. */
  lemma {:induction false} NothingToExecute(ops: seq<Op>, id: int, run: Hook -> int, reverse: bool, stop: bool)
    requires id !in RefRun(ops).live
    ensures Execute(Run(ops), id, run, reverse, stop) == (if Run(ops) == Absent then -1 else -1000, [])
  {
    StagesAreStableSorts(ops);
    if Run(ops).Present? {
      FoundIsLive(Run(ops).stages, RefRun(ops).live, id);
    }
  }

  /**
   * After any run, executing a stage runs its registered hooks in stable priority order, or
   * exactly backwards; all of them, or up to and including the first that fails when asked
   * to stop there.
   */
  lemma {:induction false} ExecutionOrder(ops: seq<Op>, id: int, run: Hook -> int, reverse: bool, stop: bool)
    requires id in RefRun(ops).live
    ensures var order := Direct(Sort(RefRun(ops).live[id]), reverse);
      var (ret, log) := Execute(Run(ops), id, run, reverse, stop);
      && log <= order && (order != [] ==> log != []) && (order == [] ==> ret == 0)
      && (!stop ==> log == order && ret == 0)
      && (stop ==> forall i | 0 <= i < |log| - 1 :: run(log[i]) == 0)
      && (stop && log != [] ==> ret == run(log[|log| - 1]))
      && (stop && log < order ==> ret != 0)
  {
    StagesAreStableSorts(ops);
    var stages := if Run(ops).Absent? then [] else Run(ops).stages;
    FoundIsLive(stages, RefRun(ops).live, id);
    VisitedUpToError(Direct(Sort(RefRun(ops).live[id]), reverse), run, stop);
  }

  /** The hook run as the `i`-th is the `i`-th of the stage from the front, or from the back. */
  lemma {:induction false} ExecutedAt(ops: seq<Op>, id: int, run: Hook -> int, reverse: bool, stop: bool, i: nat)
    requires id in RefRun(ops).live && i < |Execute(Run(ops), id, run, reverse, stop).1|
    ensures var sorted, log := Sort(RefRun(ops).live[id]), Execute(Run(ops), id, run, reverse, stop).1;
      |log| <= |sorted| && log[i] == sorted[if reverse then |sorted| - 1 - i else i]
  {
    ExecutionOrder(ops, id, run, reverse, stop);
    DirectAt(Sort(RefRun(ops).live[id]), reverse, Execute(Run(ops), id, run, reverse, stop).1, i);
  }

  lemma DirectAt(s: seq<Hook>, reverse: bool, log: seq<Hook>, i: nat)
    requires log <= Direct(s, reverse) && i < |log|
    ensures |log| <= |s| && log[i] == s[if reverse then |s| - 1 - i else i]
  {
  }
}
