/** The default hook manager, with its lists held as sequences. */
module HookManager {

  import opened Options
  import opened Lists
  import opened HookSpec
  import opened HookRuns

  class HookMgr {
    var created: bool
    var stages: seq<Stage>

    ghost function View(): Mgr
      reads this
    {
      if created then Present(stages) else Absent
    }

    ghost predicate Valid()
      reads this
    {
      !created ==> stages == []
    }

    constructor ()
      ensures Valid() && View() == Absent
    {
      created, stages := false, [];
    }

    method GetHookMgr(autoCreate: bool, mgrOk: bool) returns (found: bool)
      requires Valid()
      modifies this`created
      ensures Valid() && found == created == (old(created) || (autoCreate && mgrOk))
    {
      if created {
        return true;
      }
      if !autoCreate {
        return false;
      }
      created := mgrOk;
      return mgrOk;
    }

    method FindStageItem(id: int) returns (i: nat)
      ensures i == FindStage(stages, id)
    {
      i := 0;
      assert stages[0..] == stages;
      while i < |stages|
        invariant 0 <= i <= |stages| && FindStage(stages, id) == i + FindStage(stages[i..], id)
      {
        if stages[i].id - id == 0 {
          return;
        }
        assert stages[i..][1..] == stages[i + 1..];
        i := i + 1;
      }
    }

    /** The position of the stage, created at the end if need be; none when it is missing. */
    method GetHookStage(id: int, createIfNotFound: bool, stageOk: bool) returns (i: nat)
      modifies this`stages
      ensures var k := FindStage(old(stages), id);
        if k == |old(stages)| && createIfNotFound && stageOk
           then i == k && stages == old(stages) + [Stage(id, [])]
           else stages == old(stages) && i == k
    {
      i := FindStageItem(id);
      if i < |stages| {
        return;
      }
      if createIfNotFound && stageOk {
        stages := stages + [Stage(id, [])];
      }
    }

    /** The first position whose hook has a greater priority value. */
    method FindPlaceFor(hooks: seq<Hook>, hook: Hook) returns (k: nat)
      ensures k == Position(hooks, hook, ComparePrio)
    {
      k := 0;
      while k < |hooks|
        invariant 0 <= k <= |hooks| && forall i | 0 <= i < k :: hooks[i].prio <= hook.prio
      {
        if hooks[k].prio - hook.prio > 0 {
          break;
        }
        k := k + 1;
      }
      PositionAt(hooks, hook, ComparePrio, k);
    }

    method HasHook(hooks: seq<Hook>, hook: Hook) returns (found: bool)
      ensures found == (hook in hooks)
    {
      for k := 0 to |hooks|
        invariant hook !in hooks[..k]
      {
        if hooks[k].prio == hook.prio {
          if hooks[k].function_ == hook.function_ && hooks[k].cookie == hook.cookie {
            return true;
          }
        }
      }
      assert hooks[..|hooks|] == hooks;
      return false;
    }

    method AddHookToStage(i: nat, hook: Hook, itemOk: bool) returns (r: int)
      requires i < |stages|
      modifies this`stages
      ensures (stages, r) == AddToStage(old(stages), i, hook, itemOk)
    {
      var hooks := stages[i].hooks;
      var found := HasHook(hooks, hook);
      if found {
        return 0;
      }
      if !itemOk {
        return -1;
      }
      var k := FindPlaceFor(hooks, hook);
      stages := stages[i := Stage(stages[i].id, hooks[..k] + [hook] + hooks[k..])];
      return 0;
    }

    method HookMgrAddEx(id: int, hook: Hook, alloc: Alloc) returns (r: int)
      requires Valid()
      modifies this
      ensures Valid() && (View(), r) == AddStep(old(View()), id, hook, alloc)
    {
      if hook.function_ == 0 {
        return -1;
      }
      var found := GetHookMgr(true, alloc.mgr);
      if !found {
        return -1;
      }
      var i := GetHookStage(id, true, alloc.stage);
      if i == |stages| {
        return -1;
      }
      r := AddHookToStage(i, hook, alloc.item);
    }

    /** A traversal that drops the hooks of one function. */
    method WithoutFunction(hooks: seq<Hook>, function_: nat) returns (kept: seq<Hook>)
      ensures kept == Filter(hooks, Other(function_))
    {
      kept := [];
      for k := 0 to |hooks|
        invariant kept == Filter(hooks[..k], Other(function_))
      {
        FilterNext(hooks, k, Other(function_));
        if hooks[k].function_ != function_ {
          kept := kept + [hooks[k]];
        }
      }
      assert hooks[..|hooks|] == hooks;
    }

    method HookMgrDel(id: int, function_: nat)
      requires Valid()
      modifies this
      ensures Valid() && View() == DelStep(old(View()), id, function_)
    {
      var found := GetHookMgr(false, false);
      if !found {
        return;
      }
      var i := GetHookStage(id, false, false);
      if i == |stages| {
        return;
      }
      if function_ != 0 {
        var kept := WithoutFunction(stages[i].hooks, function_);
        stages := stages[i := Stage(id, kept)];
        return;
      }
      stages := stages[..i] + stages[i + 1..];
    }

    /** Runs the hooks of a stage; `run` is what each returns. */
    method HookMgrExecute(id: int, run: Hook -> int, reverse: bool, stop: bool) returns (ret: int, log: seq<Hook>)
      requires Valid()
      ensures (ret, log) == Execute(View(), id, run, reverse, stop)
    {
      log := [];
      if !created {
        return -1, log;
      }
      var i := FindStageItem(id);
      if i == |stages| {
        return ERR_NO_HOOK_STAGE, log;
      }
      var s := Direct(stages[i].hooks, reverse);
      var k := 0;
      TraversalStarts(s, run, stop);
      while k < |s|
        invariant 0 <= k <= |s| && TraversalAt(s, run, stop, k, log)
      {
        TraversalStep(s, run, stop, k, log);
        ret := run(s[k]);
        log := log + [s[k]];
        if ret != 0 && stop {
          return;
        }
        k := k + 1;
      }
      TraversalEnds(s, run, stop, log);
      return 0, log;
    }

    method HookMgrGetHooksCnt(id: int) returns (cnt: nat)
      requires Valid()
      ensures cnt == match Lookup(stages, id) case None => 0 case Some(hooks) => |hooks|
    {
      if !created {
        return 0;
      }
      var i := FindStageItem(id);
      if i == |stages| {
        return 0;
      }
      cnt := |stages[i].hooks|;
    }
  }
}
