// ServiceManager under every interleaving of the manager, its services and the callers of
// Get and RunningServices. The set of controllers sits in a one-slot channel, the token.

module ServiceManager {
  import opened Prelude
  import opened ConfigGraph
  import opened ServiceConfig

  /** A service that was started: for which generation of the configuration, whether it was
      told to stop, and whether its done channel is closed. */
  datatype Instance = Instance(id: ServiceID, generation: nat, cancelled: bool, done: bool)

  datatype Token = Free | WithManager | WithClient(c: nat)

  datatype Manager =
    | Idle
    | Received(ids: seq<ServiceID>)
    | Stopping(ids: seq<ServiceID>, todo: set<string>)
    | Awaiting(ids: seq<ServiceID>, todo: set<string>)
    | Starting(ids: seq<ServiceID>, next: nat)
    | Failed

  /** A call of Get, possibly from inside a running service, or of RunningServices. */
  datatype Client =
    | GetWaiting(id: ServiceID, caller: Option<nat>)
    | GetHolding(id: ServiceID, caller: Option<nat>)
    | GetDone(id: ServiceID, caller: Option<nat>, result: Option<nat>)
    | ListWaiting
    | ListHolding
    | ListDone(ids: set<ServiceID>)

  /** controllers maps the names of running services to instances; generation counts the
      configurations whose services began to be started, and applied is the last of these. */
  datatype State = State(
    token: Token,
    controllers: map<string, nat>,
    instances: map<nat, Instance>,
    manager: Manager,
    generation: nat,
    applied: seq<ServiceID>,
    clients: map<nat, Client>)

  datatype Step =
    | Receive(ids: seq<ServiceID>)
    | TakeToken
    | StopOne(name: string)
    | StopsSent
    | WaitOne(name: string)
    | AllGone
    | StartOne(n: nat)
    | AlreadyRunning
    | BuilderFails
    | PutToken
    | Exit(n: nat)
    | CallGet(c: nat, id: ServiceID, caller: Option<nat>)
    | CallList(c: nat)
    | ClientTake(c: nat)
    | ClientPut(c: nat)

  /** NewServiceManager. */
  function Init(): State {
    State(Free, map[], map[], Idle, 0, [], map[])
  }

  /** The instance is inside a call of Get, so it cannot end. */
  predicate InGet(s: State, n: nat) {
    exists c :: c in s.clients && (s.clients[c].GetWaiting? || s.clients[c].GetHolding?) &&
      s.clients[c].caller == Some(n)
  }

  ghost predicate Enabled(s: State, step: Step) {
    match step
    case Receive(ids) => s.manager == Idle && Startable(ids)
    case TakeToken => s.manager.Received? && s.token == Free
    case StopOne(name) =>
      && s.manager.Stopping? && name in s.manager.todo
      && name in s.controllers && s.controllers[name] in s.instances
    case StopsSent => s.manager.Stopping? && s.manager.todo == {}
    case WaitOne(name) =>
      && s.manager.Awaiting? && name in s.manager.todo
      && name in s.controllers && s.controllers[name] in s.instances && s.instances[s.controllers[name]].done
    case AllGone => s.manager.Awaiting? && s.manager.todo == {}
    case StartOne(n) =>
      && s.manager.Starting? && s.manager.next < |s.manager.ids| && n !in s.instances
      && s.manager.ids[s.manager.next].name !in s.controllers
    case AlreadyRunning =>
      && s.manager.Starting? && s.manager.next < |s.manager.ids|
      && s.manager.ids[s.manager.next].name in s.controllers
    case BuilderFails => s.manager.Starting? && s.manager.next < |s.manager.ids|
    case PutToken => s.manager.Starting? && s.manager.next == |s.manager.ids|
    case Exit(n) => n in s.instances && !s.instances[n].done && !InGet(s, n)
    case CallGet(c, _, caller) =>
      c !in s.clients && (caller.Some? ==> caller.value in s.instances && !s.instances[caller.value].done)
    case CallList(c) => c !in s.clients
    case ClientTake(c) => c in s.clients && (s.clients[c].GetWaiting? || s.clients[c].ListWaiting?) && s.token == Free
    case ClientPut(c) => c in s.clients && (s.clients[c].GetHolding? || s.clients[c].ListHolding?)
  }

  function RunningIds(s: State): set<ServiceID> {
    set name | name in s.controllers && s.controllers[name] in s.instances :: s.instances[s.controllers[name]].id
  }

  ghost function Apply(s: State, step: Step): State
    requires Enabled(s, step)
  {
    match step
    case Receive(ids) => s.(manager := Received(ids))
    case TakeToken => s.(token := WithManager, manager := Stopping(s.manager.ids, s.controllers.Keys))
    case StopOne(name) =>
      var n := s.controllers[name];
      s.(instances := s.instances[n := s.instances[n].(cancelled := true)],
         manager := Stopping(s.manager.ids, s.manager.todo - {name}))
    case StopsSent => s.(manager := Awaiting(s.manager.ids, s.controllers.Keys))
    case WaitOne(name) =>
      s.(controllers := s.controllers - {name}, manager := Awaiting(s.manager.ids, s.manager.todo - {name}))
    case AllGone =>
      s.(manager := Starting(s.manager.ids, 0), generation := s.generation + 1, applied := s.manager.ids)
    case StartOne(n) =>
      var id := s.manager.ids[s.manager.next];
      s.(controllers := s.controllers[id.name := n],
         instances := s.instances[n := Instance(id, s.generation, false, false)],
         manager := Starting(s.manager.ids, s.manager.next + 1))
    case AlreadyRunning => s.(manager := Failed)
    case BuilderFails => s.(manager := Failed)
    case PutToken => s.(token := Free, manager := Idle)
    case Exit(n) => s.(instances := s.instances[n := s.instances[n].(done := true)])
    case CallGet(c, id, caller) => s.(clients := s.clients[c := GetWaiting(id, caller)])
    case CallList(c) => s.(clients := s.clients[c := ListWaiting])
    case ClientTake(c) =>
      s.(token := WithClient(c), clients := s.clients[c :=
        match s.clients[c] case GetWaiting(id, caller) => GetHolding(id, caller) case _ => ListHolding])
    case ClientPut(c) =>
      s.(token := Free, clients := s.clients[c :=
        match s.clients[c]
        case GetHolding(id, caller) =>
          GetDone(id, caller, if id.name in s.controllers then Some(s.controllers[id.name]) else None)
        case _ => ListDone(RunningIds(s))])
  }

  // ---------------------------------------------------------------- the invariant

  predicate ManagerHolds(m: Manager) {
    m.Stopping? || m.Awaiting? || m.Starting? || m.Failed?
  }

  ghost predicate TokenInv(s: State) {
    && (s.token == WithManager <==> ManagerHolds(s.manager))
    && (forall c :: c in s.clients && (s.clients[c].GetHolding? || s.clients[c].ListHolding?) <==>
      s.token == WithClient(c))
  }

  /** Controllers control instances of the current generation, and whatever still runs is
      controlled. */
  ghost predicate ControlInv(s: State) {
    && (forall name :: name in s.controllers ==>
          && s.controllers[name] in s.instances
          && s.instances[s.controllers[name]].id.name == name
          && s.instances[s.controllers[name]].generation == s.generation)
    && (forall n :: n in s.instances && !s.instances[n].done ==>
          s.instances[n].id.name in s.controllers && s.controllers[s.instances[n].id.name] == n)
  }

  /** The controllers are exactly those of the first k services of ids. */
  ghost predicate Runs(s: State, ids: seq<ServiceID>, k: nat) {
    && k <= |ids|
    && (forall i :: 0 <= i < k ==>
          && ids[i].name in s.controllers && s.controllers[ids[i].name] in s.instances
          && s.instances[s.controllers[ids[i].name]].id == ids[i])
    && (forall name :: name in s.controllers ==> exists i :: 0 <= i < k && ids[i].name == name)
  }

  ghost predicate PhaseInv(s: State) {
    && (s.applied == [] || Startable(s.applied))
    && match s.manager
       case Idle => Runs(s, s.applied, |s.applied|)
       case Received(ids) => Startable(ids) && Runs(s, s.applied, |s.applied|)
       case Stopping(ids, todo) =>
         && Startable(ids) && Runs(s, s.applied, |s.applied|) && todo <= s.controllers.Keys
         && (forall name :: name in s.controllers && name !in todo && s.controllers[name] in s.instances ==>
               s.instances[s.controllers[name]].cancelled)
       case Awaiting(ids, todo) =>
         && Startable(ids) && s.controllers.Keys == todo
         && (forall name :: name in s.controllers && s.controllers[name] in s.instances ==>
               s.instances[s.controllers[name]].cancelled)
       case Starting(ids, next) => s.applied == ids && Startable(ids) && Runs(s, ids, next)
       case Failed => true
  }

  /** A service that is inside Get has not ended. */
  ghost predicate CallersInv(s: State) {
    forall c, n :: c in s.clients && (s.clients[c].GetWaiting? || s.clients[c].GetHolding?) ==>
      (s.clients[c].caller == Some(n) ==> n in s.instances && !s.instances[n].done)
  }

  ghost predicate Inv(s: State) {
    TokenInv(s) && ControlInv(s) && PhaseInv(s) && CallersInv(s)
  }

  lemma InitInv()
    ensures Inv(Init())
  {
  }

  lemma TokenStep(s: State, step: Step)
    requires TokenInv(s) && Enabled(s, step)
    ensures TokenInv(Apply(s, step))
  {
  }

  lemma ControlStep(s: State, step: Step)
    requires Inv(s) && Enabled(s, step)
    ensures ControlInv(Apply(s, step))
  {
    hide PhaseInv, TokenInv, CallersInv;
    match step
    case StopOne(name) => ControlStop(s, name);
    case WaitOne(name) => ControlWait(s, name);
    case AllGone => ControlGone(s);
    case StartOne(n) => ControlStart(s, n);
    case Exit(n) => ControlExit(s, n);
    case _ =>
  }

  lemma ControlStop(s: State, name: string)
    requires ControlInv(s) && Enabled(s, StopOne(name))
    ensures ControlInv(Apply(s, StopOne(name)))
  {
  }

  lemma ControlWait(s: State, name: string)
    requires ControlInv(s) && Enabled(s, WaitOne(name))
    ensures ControlInv(Apply(s, WaitOne(name)))
  {
  }

  lemma ControlGone(s: State)
    requires ControlInv(s) && PhaseInv(s) && Enabled(s, AllGone)
    ensures ControlInv(Apply(s, AllGone))
  {
    assert s.controllers.Keys == {};
  }

  lemma ControlStart(s: State, n: nat)
    requires ControlInv(s) && Enabled(s, StartOne(n))
    ensures ControlInv(Apply(s, StartOne(n)))
  {
  }

  lemma ControlExit(s: State, n: nat)
    requires ControlInv(s) && Enabled(s, Exit(n))
    ensures ControlInv(Apply(s, Exit(n)))
  {
  }

  lemma CallersStep(s: State, step: Step)
    requires CallersInv(s) && Enabled(s, step)
    ensures CallersInv(Apply(s, step))
  {
  }

  /** Instances keep their ids, and cancelled ones stay cancelled. */
  ghost predicate SameInstances(s: State, s': State) {
    forall n :: n in s.instances ==>
      && n in s'.instances && s'.instances[n].id == s.instances[n].id
      && (s.instances[n].cancelled ==> s'.instances[n].cancelled)
  }

  lemma RunsFrame(s: State, s': State, ids: seq<ServiceID>, k: nat)
    requires Runs(s, ids, k) && s'.controllers == s.controllers && SameInstances(s, s')
    ensures Runs(s', ids, k)
  {
  }

  /** Steps of services and callers leave the phase alone. */
  lemma AsidePhase(s: State, s': State)
    requires PhaseInv(s) && SameInstances(s, s')
    requires s'.controllers == s.controllers && s'.manager == s.manager && s'.applied == s.applied
    requires s'.instances.Keys == s.instances.Keys
    ensures PhaseInv(s')
  {
    match s.manager
    case Idle => RunsFrame(s, s', s.applied, |s.applied|);
    case Received(_) => RunsFrame(s, s', s.applied, |s.applied|);
    case Stopping(_, _) => RunsFrame(s, s', s.applied, |s.applied|);
    case Starting(ids, next) => RunsFrame(s, s', ids, next);
    case _ =>
  }

  lemma StopPhase(s: State, name: string)
    requires PhaseInv(s) && ControlInv(s) && Enabled(s, StopOne(name))
    ensures PhaseInv(Apply(s, StopOne(name)))
  {
    hide Runs, Startable;
    var s' := Apply(s, StopOne(name));
    RunsFrame(s, s', s.applied, |s.applied|);
  }

  lemma StartPhase(s: State, n: nat)
    requires PhaseInv(s) && ControlInv(s) && Enabled(s, StartOne(n))
    ensures PhaseInv(Apply(s, StartOne(n)))
  {
    hide Runs;
    var s' := Apply(s, StartOne(n));
    var ids, k := s.manager.ids, s.manager.next;
    assert forall i :: 0 <= i < k ==> ids[i].name != ids[k].name;
    RunsOneMore(s, s', ids, k, n);
  }

  lemma RunsOneMore(s: State, s': State, ids: seq<ServiceID>, k: nat, n: nat)
    requires k < |ids| && Runs(s, ids, k) && n !in s.instances
    requires forall i :: 0 <= i < k ==> ids[i].name != ids[k].name
    requires s'.controllers == s.controllers[ids[k].name := n]
    requires s'.instances == s.instances[n := Instance(ids[k], s.generation, false, false)]
    ensures Runs(s', ids, k + 1)
  {
    forall i | 0 <= i < k + 1
      ensures ids[i].name in s'.controllers && s'.controllers[ids[i].name] in s'.instances
      ensures s'.instances[s'.controllers[ids[i].name]].id == ids[i]
    {
      if i < k {
        assert ids[i].name in s.controllers && s.controllers[ids[i].name] != n;
      }
    }
    forall name | name in s'.controllers ensures exists i :: 0 <= i < k + 1 && ids[i].name == name {
      if name != ids[k].name {
        var i :| 0 <= i < k && ids[i].name == name;
      } else {
        assert ids[k].name == name;
      }
    }
  }

  lemma PhaseStep(s: State, step: Step)
    requires Inv(s) && Enabled(s, step)
    ensures PhaseInv(Apply(s, step))
  {
    hide PhaseInv, ControlInv, TokenInv, CallersInv;
    match step
    case Exit(_) => OutsideStep(s, step);
    case CallGet(_, _, _) => OutsideStep(s, step);
    case CallList(_) => OutsideStep(s, step);
    case ClientTake(_) => OutsideStep(s, step);
    case ClientPut(_) => OutsideStep(s, step);
    case StopOne(name) => StopPhase(s, name);
    case StartOne(n) => StartPhase(s, n);
    case _ => ManagerStep(s, step);
  }

  /** Steps of services and callers. */
  lemma OutsideStep(s: State, step: Step)
    requires PhaseInv(s) && Enabled(s, step)
    requires step.Exit? || step.CallGet? || step.CallList? || step.ClientTake? || step.ClientPut?
    ensures PhaseInv(Apply(s, step))
  {
    hide PhaseInv;
    AsidePhase(s, Apply(s, step));
  }

  /** Steps of the manager that stop and start nothing. */
  lemma ManagerStep(s: State, step: Step)
    requires PhaseInv(s) && Enabled(s, step) && !step.StopOne? && !step.StartOne?
    requires !step.Exit? && !step.CallGet? && !step.CallList? && !step.ClientTake? && !step.ClientPut?
    ensures PhaseInv(Apply(s, step))
  {
    hide Startable;
    match step
    case Receive(_) => RunsFrame(s, Apply(s, step), s.applied, |s.applied|);
    case TakeToken => RunsFrame(s, Apply(s, step), s.applied, |s.applied|);
    case PutToken => RunsFrame(s, Apply(s, step), s.applied, |s.applied|);
    case AllGone => assert s.controllers.Keys == {};
    case _ =>
  }

  lemma StepInv(s: State, step: Step)
    requires Inv(s) && Enabled(s, step)
    ensures Inv(Apply(s, step))
  {
    TokenStep(s, step);
    ControlStep(s, step);
    CallersStep(s, step);
    PhaseStep(s, step);
  }

  // ---------------------------------------------------------------- every run

  ghost predicate Run(trace: seq<State>, steps: seq<Step>) {
    && |trace| == |steps| + 1
    && trace[0] == Init()
    && forall i :: 0 <= i < |steps| ==> Enabled(trace[i], steps[i]) && trace[i + 1] == Apply(trace[i], steps[i])
  }

  lemma {:induction false} RunInv(trace: seq<State>, steps: seq<Step>, i: nat)
    requires Run(trace, steps) && i < |trace|
    ensures Inv(trace[i])
  {
    if i == 0 {
      InitInv();
    } else {
      RunInv(trace, steps, i - 1);
      StepInv(trace[i - 1], steps[i - 1]);
    }
  }

  /** Generations never overlap: whatever has not ended belongs to the current configuration,
      so when one of its services starts, every service of every older one has ended. */
  lemma GenerationsNeverOverlap(trace: seq<State>, steps: seq<Step>, i: nat, n: nat)
    requires Run(trace, steps) && i < |trace| && n in trace[i].instances
    ensures !trace[i].instances[n].done ==> trace[i].instances[n].generation == trace[i].generation
    ensures trace[i].manager.Starting? && trace[i].instances[n].generation < trace[i].generation ==>
      trace[i].instances[n].done
  {
    RunInv(trace, steps, i);
  }

  /** Whenever the token can be taken, the controllers are exactly those of the configuration
      applied last. */
  lemma AvailableStateIsApplied(trace: seq<State>, steps: seq<Step>, i: nat)
    requires Run(trace, steps) && i < |trace| && trace[i].token != WithManager
    ensures Runs(trace[i], trace[i].applied, |trace[i].applied|)
    ensures RunningIds(trace[i]) == set id | id in trace[i].applied
  {
    RunInv(trace, steps, i);
    var s := trace[i];
    forall id | id in RunningIds(s) ensures id in s.applied {
      var name :| name in s.controllers && s.controllers[name] in s.instances &&
        s.instances[s.controllers[name]].id == id;
      var j :| 0 <= j < |s.applied| && s.applied[j].name == name;
    }
    forall id | id in s.applied ensures id in RunningIds(s) {
      var j :| 0 <= j < |s.applied| && s.applied[j] == id;
      assert id.name in s.controllers;
    }
  }

  /** The error "service already running" never occurs. */
  lemma NeverAlreadyRunning(trace: seq<State>, steps: seq<Step>, i: nat)
    requires Run(trace, steps) && i < |trace|
    ensures !Enabled(trace[i], AlreadyRunning)
  {
    RunInv(trace, steps, i);
  }

  /** When OSPF starts, the interface monitor of the same configuration has been started. */
  lemma DependencyStartsFirst(trace: seq<State>, steps: seq<Step>, i: nat, n: nat)
    requires Run(trace, steps) && i < |steps| && steps[i] == StartOne(n)
    requires trace[i + 1].instances[n].id == OSPF
    ensures var s := trace[i];
      && INTERFACE_MONITOR.name in s.controllers && s.controllers[INTERFACE_MONITOR.name] in s.instances
      && s.instances[s.controllers[INTERFACE_MONITOR.name]].id == INTERFACE_MONITOR
      && s.instances[s.controllers[INTERFACE_MONITOR.name]].generation == s.generation
  {
    RunInv(trace, steps, i);
    var s := trace[i];
    var ids, k := s.manager.ids, s.manager.next;
    assert ids[k] == OSPF && OSPF in ids;
    var a, b :| 0 <= a < b < |ids| && ids[a] == INTERFACE_MONITOR && ids[b] == OSPF;
    assert b == k;
  }

  /** A call of Get for the interface monitor from inside a running OSPF service, if it
      returns, returns the monitor of the same configuration. */
  lemma OspfFindsMonitor(trace: seq<State>, steps: seq<Step>, i: nat, c: nat, caller: nat)
    requires Run(trace, steps) && i < |steps| && steps[i] == ClientPut(c)
    requires trace[i].clients[c] == GetHolding(INTERFACE_MONITOR, Some(caller))
    requires caller in trace[i].instances && trace[i].instances[caller].id == OSPF
    ensures trace[i + 1].clients[c].GetDone?
    ensures var r, s := trace[i + 1].clients[c].result, trace[i];
      && r.Some? && r.value in s.instances
      && s.instances[r.value].id == INTERFACE_MONITOR
      && s.instances[r.value].generation == s.instances[caller].generation
  {
    RunInv(trace, steps, i);
    var s := trace[i];
    assert TokenInv(s) && ControlInv(s) && PhaseInv(s) && CallersInv(s);
    assert s.token == WithClient(c) && !ManagerHolds(s.manager);
    assert !s.instances[caller].done;
    hide Inv, TokenInv, CallersInv;
    MonitorControlled(s, caller);
  }

  /** While no configuration is being applied, a running OSPF service has its monitor. */
  lemma MonitorControlled(s: State, caller: nat)
    requires ControlInv(s) && PhaseInv(s) && !ManagerHolds(s.manager)
    requires caller in s.instances && !s.instances[caller].done && s.instances[caller].id == OSPF
    ensures var name := INTERFACE_MONITOR.name;
      && name in s.controllers && s.controllers[name] in s.instances
      && s.instances[s.controllers[name]].id == INTERFACE_MONITOR
      && s.instances[s.controllers[name]].generation == s.instances[caller].generation
  {
    assert Runs(s, s.applied, |s.applied|);
    assert OSPF.name in s.controllers && s.controllers[OSPF.name] == caller;
    var j :| 0 <= j < |s.applied| && s.applied[j].name == OSPF.name;
    assert s.applied[j] == OSPF;
    assert Precedes(s.applied, INTERFACE_MONITOR, OSPF);
    hide PhaseInv, Startable;
    var a, b :| 0 <= a < b < |s.applied| && s.applied[a] == INTERFACE_MONITOR && s.applied[b] == OSPF;
    assert s.applied[a].name in s.controllers;
  }

  /** The manager waits only for services that it has told to stop. */
  lemma WaitsForStopped(trace: seq<State>, steps: seq<Step>, i: nat, name: string)
    requires Run(trace, steps) && i < |trace| && trace[i].manager.Awaiting? && name in trace[i].manager.todo
    ensures var s := trace[i];
      name in s.controllers && s.controllers[name] in s.instances && s.instances[s.controllers[name]].cancelled
  {
    RunInv(trace, steps, i);
  }

  // ---------------------------------------------------------------- the end of a generation

  /** In step s the manager tells the instance m to stop. */
  predicate Stops(trace: seq<State>, steps: seq<Step>, s: nat, m: nat) {
    && s < |steps| && s < |trace| && steps[s].StopOne?
    && steps[s].name in trace[s].controllers && trace[s].controllers[steps[s].name] == m
  }

  lemma InstanceStep(s: State, step: Step, m: nat)
    requires Enabled(s, step) && m in s.instances
    ensures var s' := Apply(s, step);
      && m in s'.instances
      && (s'.instances[m].done ==> s.instances[m].done || step == Exit(m))
      && (s'.instances[m].cancelled ==>
            s.instances[m].cancelled || (step.StopOne? && step.name in s.controllers && s.controllers[step.name] == m))
  {
  }

  /** A service has ended only if it did so itself, and is told to stop only by the manager. */
  lemma {:induction false} SinceStart(trace: seq<State>, steps: seq<Step>, j: nat, i: nat, m: nat)
    requires Run(trace, steps) && j < i < |trace| && steps[j] == StartOne(m)
    ensures m in trace[i].instances
    ensures trace[i].instances[m].done ==> exists e :: j < e < i && steps[e] == Exit(m)
    ensures trace[i].instances[m].cancelled ==> exists s :: j < s < i && Stops(trace, steps, s, m)
  {
    hide Apply, Enabled;
    assert Enabled(trace[i - 1], steps[i - 1]) && trace[i] == Apply(trace[i - 1], steps[i - 1]);
    if j == i - 1 {
      Started(trace[j], m);
    } else {
      SinceStart(trace, steps, j, i - 1, m);
      InstanceStep(trace[i - 1], steps[i - 1], m);
      if !trace[i - 1].instances[m].cancelled && trace[i].instances[m].cancelled {
        assert Stops(trace, steps, i - 1, m);
      }
    }
  }

  lemma Started(s: State, m: nat)
    requires Enabled(s, StartOne(m))
    ensures var s' := Apply(s, StartOne(m));
      m in s'.instances && !s'.instances[m].done && !s'.instances[m].cancelled
  {
  }

  /** Every service is controlled or has been told to stop. */
  ghost predicate Accounted(s: State) {
    forall n :: n in s.instances ==>
      s.instances[n].cancelled ||
      (s.instances[n].id.name in s.controllers && s.controllers[s.instances[n].id.name] == n)
  }

  lemma AccountedStep(s: State, step: Step)
    requires Inv(s) && Accounted(s) && Enabled(s, step)
    ensures Accounted(Apply(s, step))
  {
    hide TokenInv, CallersInv, Runs;
    var s' := Apply(s, step);
    match step
    case WaitOne(name) => assert s.instances[s.controllers[name]].cancelled;
    case AllGone => assert s.controllers.Keys == {};
    case _ =>
  }

  lemma {:induction false} RunAccounted(trace: seq<State>, steps: seq<Step>, i: nat)
    requires Run(trace, steps) && i < |trace|
    ensures Accounted(trace[i])
  {
    hide Inv, Apply, Enabled;
    if i > 0 {
      RunAccounted(trace, steps, i - 1);
      RunInv(trace, steps, i - 1);
      assert Enabled(trace[i - 1], steps[i - 1]) && trace[i] == Apply(trace[i - 1], steps[i - 1]);
      AccountedStep(trace[i - 1], steps[i - 1]);
    }
  }

  lemma NoneLeft(s: State)
    requires Inv(s) && Accounted(s) && Enabled(s, AllGone)
    ensures forall n :: n in s.instances ==> s.instances[n].done && s.instances[n].cancelled
  {
    assert s.controllers.Keys == {};
  }

  /** Before the manager starts to start the services of a configuration, every service started
      before has been told to stop, and has ended. */
  lemma OldServicesEnded(trace: seq<State>, steps: seq<Step>, j: nat, k: nat, m: nat)
    requires Run(trace, steps) && j < k < |steps| && steps[j] == StartOne(m) && steps[k] == AllGone
    ensures exists e :: j < e < k && steps[e] == Exit(m)
    ensures exists s :: j < s < k && Stops(trace, steps, s, m)
  {
    hide Inv, Accounted, Stops;
    RunInv(trace, steps, k);
    RunAccounted(trace, steps, k);
    NoneLeft(trace[k]);
    SinceStart(trace, steps, j, k, m);
  }

  /** And services are started only after all of those have gone. */
  lemma {:induction false} StartsAfterGone(trace: seq<State>, steps: seq<Step>, i: nat) returns (k: nat)
    requires Run(trace, steps) && i < |trace| && trace[i].manager.Starting?
    ensures k < i && steps[k] == AllGone && forall s :: k < s < i ==> !steps[s].TakeToken?
  {
    assert i > 0 && Enabled(trace[i - 1], steps[i - 1]) && trace[i] == Apply(trace[i - 1], steps[i - 1]);
    StartingStep(trace[i - 1], steps[i - 1]);
    hide Apply, Enabled;
    if steps[i - 1] == AllGone {
      k := i - 1;
    } else {
      k := StartsAfterGone(trace, steps, i - 1);
    }
  }

  lemma StartingStep(s: State, step: Step)
    requires Enabled(s, step) && Apply(s, step).manager.Starting?
    ensures step == AllGone || (s.manager.Starting? && !step.TakeToken?)
  {
  }

  // ---------------------------------------------------------------- what callers are told

  /** The configuration received last. */
  function LastReceived(steps: seq<Step>, i: nat): seq<ServiceID>
    requires i <= |steps|
  {
    if i == 0 then []
    else match steps[i - 1] case Receive(ids) => ids case _ => LastReceived(steps, i - 1)
  }

  /** The configuration whose services were the last to be started: the one received last
      when all services of the one before were gone. */
  function LastApplied(steps: seq<Step>, i: nat): seq<ServiceID>
    requires i <= |steps|
  {
    if i == 0 then []
    else match steps[i - 1] case AllGone => LastReceived(steps, i - 1) case _ => LastApplied(steps, i - 1)
  }

  /** The configuration that the manager is working on. */
  function InWork(m: Manager): Option<seq<ServiceID>> {
    match m
    case Idle => None
    case Failed => None
    case Received(ids) => Some(ids)
    case Stopping(ids, _) => Some(ids)
    case Awaiting(ids, _) => Some(ids)
    case Starting(ids, _) => Some(ids)
  }

  lemma WorkStep(s: State, step: Step)
    requires Enabled(s, step)
    ensures var s' := Apply(s, step);
      && (step.Receive? ==> InWork(s'.manager) == Some(step.ids))
      && (!step.Receive? ==> InWork(s'.manager) == None || InWork(s'.manager) == InWork(s.manager))
      && (step.AllGone? ==> Some(s'.applied) == InWork(s.manager))
      && (!step.AllGone? ==> s'.applied == s.applied)
  {
  }

  lemma {:induction false} AppliedIs(trace: seq<State>, steps: seq<Step>, i: nat)
    requires Run(trace, steps) && i < |trace|
    ensures trace[i].applied == LastApplied(steps, i)
    ensures InWork(trace[i].manager).Some? ==> InWork(trace[i].manager).value == LastReceived(steps, i)
  {
    hide Apply, Enabled, InWork;
    if i == 0 {
      NothingInWork();
    } else {
      AppliedIs(trace, steps, i - 1);
      assert Enabled(trace[i - 1], steps[i - 1]) && trace[i] == Apply(trace[i - 1], steps[i - 1]);
      WorkStep(trace[i - 1], steps[i - 1]);
    }
  }

  lemma NothingInWork()
    ensures InWork(Init().manager) == None && Init().applied == []
  {
  }

  /** RunningServices returns exactly the services of the configuration applied last. */
  lemma ListReturnsApplied(trace: seq<State>, steps: seq<Step>, i: nat, c: nat)
    requires Run(trace, steps) && i < |steps| && steps[i] == ClientPut(c)
    requires c in trace[i].clients && trace[i].clients[c] == ListHolding
    ensures c in trace[i + 1].clients
    ensures trace[i + 1].clients[c] == ListDone(set id | id in LastApplied(steps, i))
  {
    hide LastApplied, Runs, RunningIds;
    ClientHolds(trace, steps, i, c);
    AppliedIs(trace, steps, i);
    AvailableStateIsApplied(trace, steps, i);
  }

  lemma ClientHolds(trace: seq<State>, steps: seq<Step>, i: nat, c: nat)
    requires Run(trace, steps) && i < |steps| && steps[i] == ClientPut(c)
    ensures Enabled(trace[i], ClientPut(c)) && trace[i + 1] == Apply(trace[i], ClientPut(c))
    ensures trace[i].token == WithClient(c) && ControlInv(trace[i])
  {
    RunInv(trace, steps, i);
    assert TokenInv(trace[i]);
  }

  /** Get returns the running service with the name asked for if the configuration applied
      last has one, and otherwise none. */
  lemma GetReturnsApplied(trace: seq<State>, steps: seq<Step>, i: nat, c: nat, id: ServiceID, caller: Option<nat>)
    requires Run(trace, steps) && i < |steps| && steps[i] == ClientPut(c)
    requires c in trace[i].clients && trace[i].clients[c] == GetHolding(id, caller)
    ensures c in trace[i + 1].clients && trace[i + 1].clients[c].GetDone?
    ensures var r, s := trace[i + 1].clients[c].result, trace[i];
      && (r.Some? <==> exists x :: x in LastApplied(steps, i) && x.name == id.name)
      && (r.Some? ==>
            && r.value in s.instances && s.instances[r.value].generation == s.generation
            && s.instances[r.value].id in LastApplied(steps, i) && s.instances[r.value].id.name == id.name)
  {
    hide LastApplied, RunningIds;
    ClientHolds(trace, steps, i, c);
    AppliedIs(trace, steps, i);
    AvailableStateIsApplied(trace, steps, i);
    ControlledIsApplied(trace[i], id.name);
  }

  lemma ControlledIsApplied(s: State, name: string)
    requires ControlInv(s) && Runs(s, s.applied, |s.applied|)
    ensures name in s.controllers <==> exists x :: x in s.applied && x.name == name
    ensures name in s.controllers ==>
      && s.controllers[name] in s.instances && s.instances[s.controllers[name]].generation == s.generation
      && s.instances[s.controllers[name]].id in s.applied && s.instances[s.controllers[name]].id.name == name
  {
    if name in s.controllers {
      var j :| 0 <= j < |s.applied| && s.applied[j].name == name;
      assert s.applied[j] in s.applied;
    }
    if x :| x in s.applied && x.name == name {
      var j :| 0 <= j < |s.applied| && s.applied[j] == x;
    }
  }
}
