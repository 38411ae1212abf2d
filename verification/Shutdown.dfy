/** Stopping everything, and the latch it leaves behind, across both ways of starting a process. */
module Shutdown {
  import Svc = ServiceSpec
  import Runs = StopRuns
  import U = ByUserSpec
  import opened Services

  /** All configured services by name, and the per-user instances forked from them. */
  datatype System = System(services: map<string, Svc.State>, reg: U.Registry)

  datatype Event =
    | OnService(name: string, ev: Svc.Event)
    | OnRegistry(rev: U.Event)

  /** A per-user start finds the configured service as its template and obeys its invalid mark. */
  function Resolve(sys: System, rev: U.Event): U.Event {
    if rev.Start? then
      var found := rev.key.service in sys.services;
      U.Start(rev.key, rev.env.(
        templateFound := found,
        templateInvalid := found && sys.services[rev.key.service].attr.invalid))
    else rev
  }

  function Step(sys: System, ev: Event): System {
    match ev
    case OnService(name, sev) =>
      if name in sys.services then
        sys.(services := sys.services[name := Svc.Step(sys.services[name], sev).s])
      else sys
    case OnRegistry(rev) => sys.(reg := U.Step(sys.reg, Resolve(sys, rev)))
  }

  function Run(sys: System, evs: seq<Event>): System {
    if evs == [] then sys else Step(Run(sys, evs[..|evs| - 1]), evs[|evs| - 1])
  }

  /** Whether `ev` forks a process for service `n`, directly or for some user. */
  ghost predicate Forks(sys: System, ev: Event, n: string) {
    match ev
    case OnService(name, sev) =>
      name == n && n in sys.services && exists o :: o in Svc.Step(sys.services[n], sev).out && o.Fork?
    case OnRegistry(rev) =>
      var reg1 := U.Step(sys.reg, Resolve(sys, rev));
      exists p :: p in reg1.children && p !in sys.reg.children && reg1.children[p].service == n
  }

  ghost predicate EverForks(sys: System, evs: seq<Event>, n: string) {
    evs != [] &&
    (EverForks(sys, evs[..|evs| - 1], n) || Forks(Run(sys, evs[..|evs| - 1]), evs[|evs| - 1], n))
  }

  lemma {:induction false} StopFromForksNothing(r: U.Registry, i: nat, kills: map<int, U.Kill>)
    requires i <= |r.insts|
    ensures U.StopFrom(r, i, kills).children == r.children
    decreases |r.insts| - i
  {
    if i < |r.insts| {
      var r1 := U.StopInstance(r, i, U.KillOf(kills, r.insts[i].pid));
      if r1.insts[i].pid <= 0 {
        StopFromForksNothing(U.Remove(r1, i), i, kills);
      } else {
        StopFromForksNothing(r1, i + 1, kills);
      }
    }
  }

  /** Only a start with a template that is not invalid adds a child, and only for its own key. */
  lemma OnlyStartForks(r: U.Registry, rev: U.Event)
    ensures var r1 := U.Step(r, rev);
            forall p | p in r1.children && p !in r.children ::
              rev.Start? && r1.children[p] == rev.key && rev.env.templateFound && !rev.env.templateInvalid
  {
    if rev.StopAll? {
      StopFromForksNothing(r, 0, rev.kills);
    }
  }

  lemma LatchStep(sys: System, ev: Event, n: string)
    requires n in sys.services && sys.services[n].attr.invalid
    ensures !Forks(sys, ev, n)
    ensures var sys1 := Step(sys, ev); n in sys1.services && sys1.services[n].attr.invalid
  {
    match ev
    case OnService(name, sev) =>
      Runs.InvalidStep(sys.services[n], sev);
    case OnRegistry(rev) =>
      OnlyStartForks(sys.reg, Resolve(sys, rev));
  }

  lemma {:induction false} LatchRun(sys: System, evs: seq<Event>, n: string)
    requires n in sys.services && sys.services[n].attr.invalid
    ensures !EverForks(sys, evs, n)
    ensures var sys1 := Run(sys, evs); n in sys1.services && sys1.services[n].attr.invalid
  {
    if evs != [] {
      LatchRun(sys, evs[..|evs| - 1], n);
      LatchStep(Run(sys, evs[..|evs| - 1]), evs[|evs| - 1], n);
    }
  }

  /** Stop every service that the filter does not spare. */
  function StopConfigured(sys: System, mark: bool, spared: set<string>, env: map<string, Svc.Env>): System
    requires sys.services.Keys <= env.Keys
  {
    sys.(services := map n | n in sys.services ::
      if n in spared then sys.services[n] else Svc.Step(sys.services[n], Svc.StopAll(mark, env[n])).s)
  }

  /**
   The shutdown latch: after the services are stopped with the invalid mark, no sequence of starts,
   on-demand requests, stops, reaps, timers or per-user events forks any marked service again.
   */
  lemma ShutdownLatch(sys: System, spared: set<string>, env: map<string, Svc.Env>, evs: seq<Event>)
    requires sys.services.Keys <= env.Keys
    ensures forall n | n in sys.services && n !in spared ::
              !EverForks(StopConfigured(sys, true, spared, env), evs, n)
  {
    var sys1 := StopConfigured(sys, true, spared, env);
    forall n | n in sys.services && n !in spared
      ensures !EverForks(sys1, evs, n)
    {
      Runs.InvalidStep(sys.services[n].(attr := sys.services[n].attr.(invalid := true)), Svc.StopAll(true, env[n]));
      LatchRun(sys1, evs, n);
    }
  }

  method MarkAndStop(service: Service, mark: bool, env: Svc.Env)
    requires service.Valid()
    modifies service
    ensures service.Valid() && service.View() == Svc.Step(old(service.View()), Svc.StopAll(mark, env)).s
  {
    if mark {
      service.attribute := SetInvalid(service.attribute);
      service.attr := service.attr.(invalid := true);
    }
    var _ := service.ServiceStop(service.cfg.sigterm, env);
  }

  /** The walk over the service nodes; a node may have lost its service, and the filter may spare one. */
  method StopConfiguredServices(nodes: seq<Service?>, mark: bool, spared: seq<bool>, envs: seq<Svc.Env>)
    requires |spared| == |envs| == |nodes|
    requires forall i, j | 0 <= i < j < |nodes| :: nodes[i] != null ==> nodes[i] != nodes[j]
    requires forall i | 0 <= i < |nodes| && nodes[i] != null :: nodes[i].Valid()
    modifies set i | 0 <= i < |nodes| && nodes[i] != null :: nodes[i]
    ensures forall i | 0 <= i < |nodes| && nodes[i] != null :: nodes[i].Valid()
    ensures forall i | 0 <= i < |nodes| && nodes[i] != null ::
              nodes[i].View() == (if spared[i] then old(nodes[i].View())
                                  else Svc.Step(old(nodes[i].View()), Svc.StopAll(mark, envs[i])).s)
  {
    var k := 0;
    while k < |nodes|
      invariant k <= |nodes|
      invariant forall i | 0 <= i < |nodes| && nodes[i] != null :: nodes[i].Valid()
      invariant forall i | k <= i < |nodes| && nodes[i] != null :: nodes[i].View() == old(nodes[i].View())
      invariant forall i | 0 <= i < k && nodes[i] != null ::
                  nodes[i].View() == (if spared[i] then old(nodes[i].View())
                                      else Svc.Step(old(nodes[i].View()), Svc.StopAll(mark, envs[i])).s)
    {
      var service := nodes[k];
      if service != null && !spared[k] {
        MarkAndStop(service, mark, envs[k]);
      }
      k := k + 1;
    }
  }
}
