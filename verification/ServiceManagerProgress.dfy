// Whether the service manager ever gets on with a new configuration. It holds the token while
// it waits for the old services to end, and a service that waits for the token in Get cannot
// end.

module ServiceManagerProgress {
  import opened Prelude
  import opened ServiceConfig
  import opened ServiceManager

  /** The manager holds the token and has still to wait for the service called name, which is
      itself waiting for the token, in the call c of Get. */
  predicate Stuck(s: State, name: string, c: nat) {
    && s.token == WithManager && (s.manager.Stopping? || (s.manager.Awaiting? && name in s.manager.todo))
    && name in s.controllers
    && c in s.clients && s.clients[c].GetWaiting? && s.clients[c].caller == Some(s.controllers[name])
  }

  /** Any steps that can be taken one after the other. */
  ghost predicate Path(trace: seq<State>, steps: seq<Step>) {
    && |trace| == |steps| + 1
    && forall i :: 0 <= i < |steps| ==> Enabled(trace[i], steps[i]) && trace[i + 1] == Apply(trace[i], steps[i])
  }

  /** Some steps lead from s to a state in which the services of the new configuration are
      being started. */
  ghost predicate CanGoOn(s: State) {
    exists trace: seq<State>, steps: seq<Step> ::
      Path(trace, steps) && trace[0] == s && trace[|steps|].manager.Starting?
  }

  // ---------------------------------------------------------------- stuck for ever

  lemma StuckStep(s: State, step: Step, name: string, c: nat)
    requires Inv(s) && Stuck(s, name, c) && Enabled(s, step)
    ensures Stuck(Apply(s, step), name, c)
  {
    hide PhaseInv, ControlInv;
    var n := s.controllers[name];
    assert CallersInv(s) && TokenInv(s);
    match step
    case Exit(m) => assert InGet(s, n);
    case WaitOne(other) => assert !s.instances[n].done;
    case _ =>
  }

  lemma {:induction false} StuckForever(trace: seq<State>, steps: seq<Step>, i: nat, name: string, c: nat)
    requires Path(trace, steps) && i < |trace| && Inv(trace[0]) && Stuck(trace[0], name, c)
    ensures Inv(trace[i]) && Stuck(trace[i], name, c)
  {
    hide Inv, Stuck, Apply, Enabled;
    if i > 0 {
      StuckForever(trace, steps, i - 1, name, c);
      StuckStep(trace[i - 1], steps[i - 1], name, c);
      StepInv(trace[i - 1], steps[i - 1]);
    }
  }

  // ---------------------------------------------------------------- getting on

  /** One more step before a path that starts where it leads. */
  lemma StepFirst(s: State, step: Step)
    requires Enabled(s, step) && CanGoOn(Apply(s, step))
    ensures CanGoOn(s)
  {
    hide Enabled, Apply;
    var trace: seq<State>, steps: seq<Step> :|
      Path(trace, steps) && trace[0] == Apply(s, step) && trace[|steps|].manager.Starting?;
    var trace', steps' := [s] + trace, [step] + steps;
    forall i | 0 <= i < |steps'| ensures Enabled(trace'[i], steps'[i]) && trace'[i + 1] == Apply(trace'[i], steps'[i]) {
      if i > 0 {
        assert steps'[i] == steps[i - 1] && trace'[i] == trace[i - 1] && trace'[i + 1] == trace[i];
      }
    }
    assert Path(trace', steps') && trace'[0] == s && trace'[|steps'|] == trace[|steps|];
  }

  lemma Arrived(s: State)
    requires s.manager.Starting?
    ensures CanGoOn(s)
  {
    assert Path([s], []) && [s][0] == s;
  }

  ghost predicate NoneStuck(s: State) {
    forall name, c :: !Stuck(s, name, c)
  }

  /** What the manager still has to wait for, when it has told all services to stop. */
  lemma {:induction false} WaitingGoesOn(s: State)
    requires Inv(s) && s.manager.Awaiting? && NoneStuck(s)
    ensures CanGoOn(s)
    decreases s.manager.todo, 1
  {
    hide Inv, NoneStuck, Stuck, Apply, Enabled, CanGoOn;
    if s.manager.todo == {} {
      GoneStep(s);
      Arrived(Apply(s, AllGone));
      StepFirst(s, AllGone);
    } else {
      var name :| name in s.manager.todo;
      Awaited(s, name);
      var n := s.controllers[name];
      if s.instances[n].done {
        OneGone(s, name);
      } else {
        ExitStep(s, name);
        StepInv(s, Exit(n));
        OneGone(Apply(s, Exit(n)), name);
        StepFirst(s, Exit(n));
      }
    }
  }

  lemma {:induction false} OneGone(s: State, name: string)
    requires Inv(s) && s.manager.Awaiting? && NoneStuck(s) && name in s.manager.todo
    requires name in s.controllers && s.controllers[name] in s.instances && s.instances[s.controllers[name]].done
    ensures CanGoOn(s)
    decreases s.manager.todo, 0
  {
    hide Inv, NoneStuck, Stuck, Apply, Enabled, CanGoOn;
    WaitStep(s, name);
    StepInv(s, WaitOne(name));
    WaitingGoesOn(Apply(s, WaitOne(name)));
    StepFirst(s, WaitOne(name));
  }

  lemma GoneStep(s: State)
    requires s.manager.Awaiting? && s.manager.todo == {}
    ensures Enabled(s, AllGone) && Apply(s, AllGone).manager.Starting?
  {
  }

  lemma Awaited(s: State, name: string)
    requires Inv(s) && s.manager.Awaiting? && name in s.manager.todo
    ensures name in s.controllers && s.controllers[name] in s.instances
  {
    assert PhaseInv(s) && ControlInv(s);
  }

  /** A service that is not in a call of Get can end. */
  lemma ExitStep(s: State, name: string)
    requires Inv(s) && s.manager.Awaiting? && NoneStuck(s) && name in s.manager.todo
    requires name in s.controllers && s.controllers[name] in s.instances && !s.instances[s.controllers[name]].done
    ensures var n := s.controllers[name];
      Enabled(s, Exit(n)) && var s' := Apply(s, Exit(n));
      && s'.manager == s.manager && s'.controllers == s.controllers && NoneStuck(s')
      && n in s'.instances && s'.instances[n].done
  {
    hide PhaseInv, ControlInv;
    var n := s.controllers[name];
    assert TokenInv(s);
    forall c | c in s.clients && (s.clients[c].GetWaiting? || s.clients[c].GetHolding?)
      ensures s.clients[c].caller != Some(n)
    {
      assert !Stuck(s, name, c);
    }
    assert forall other, c :: Stuck(Apply(s, Exit(n)), other, c) ==> Stuck(s, other, c);
  }

  lemma WaitStep(s: State, name: string)
    requires s.manager.Awaiting? && NoneStuck(s) && name in s.manager.todo
    requires name in s.controllers && s.controllers[name] in s.instances && s.instances[s.controllers[name]].done
    ensures Enabled(s, WaitOne(name))
    ensures var s' := Apply(s, WaitOne(name));
      s'.manager.Awaiting? && s'.manager.todo == s.manager.todo - {name} && NoneStuck(s')
  {
    assert forall other, c :: Stuck(Apply(s, WaitOne(name)), other, c) ==> Stuck(s, other, c);
  }

  lemma {:induction false} StoppingGoesOn(s: State)
    requires Inv(s) && s.manager.Stopping? && NoneStuck(s)
    ensures CanGoOn(s)
    decreases s.manager.todo
  {
    hide Inv, NoneStuck, Stuck, Apply, Enabled, CanGoOn;
    if s.manager.todo == {} {
      SentStep(s);
      StepInv(s, StopsSent);
      WaitingGoesOn(Apply(s, StopsSent));
      StepFirst(s, StopsSent);
    } else {
      var name :| name in s.manager.todo;
      StopStep(s, name);
      StepInv(s, StopOne(name));
      StoppingGoesOn(Apply(s, StopOne(name)));
      StepFirst(s, StopOne(name));
    }
  }

  lemma SentStep(s: State)
    requires Inv(s) && s.manager.Stopping? && s.manager.todo == {} && NoneStuck(s)
    ensures Enabled(s, StopsSent) && Apply(s, StopsSent).manager.Awaiting? && NoneStuck(Apply(s, StopsSent))
  {
    assert TokenInv(s);
    assert forall other, c :: Stuck(Apply(s, StopsSent), other, c) ==> Stuck(s, other, c);
  }

  lemma StopStep(s: State, name: string)
    requires Inv(s) && s.manager.Stopping? && name in s.manager.todo && NoneStuck(s)
    ensures Enabled(s, StopOne(name))
    ensures var s' := Apply(s, StopOne(name));
      s'.manager.Stopping? && s'.manager.todo == s.manager.todo - {name} && NoneStuck(s')
  {
    assert PhaseInv(s) && ControlInv(s);
    assert forall other, c :: Stuck(Apply(s, StopOne(name)), other, c) ==> Stuck(s, other, c);
  }

  /** While it stops the services of the old configuration, the manager can still get on with
      the new one exactly if none of those it has to wait for waits for the token in Get. */
  lemma GoesOnIff(trace: seq<State>, steps: seq<Step>, i: nat)
    requires Run(trace, steps) && i < |trace|
    requires trace[i].manager.Stopping? || trace[i].manager.Awaiting?
    ensures CanGoOn(trace[i]) <==> forall name, c :: !Stuck(trace[i], name, c)
  {
    hide Inv, Stuck, Apply, Enabled;
    RunInv(trace, steps, i);
    var s := trace[i];
    if NoneStuck(s) {
      if s.manager.Stopping? {
        StoppingGoesOn(s);
      } else {
        WaitingGoesOn(s);
      }
    } else {
      var name, c :| Stuck(s, name, c);
      forall path: seq<State>, taken: seq<Step> | Path(path, taken) && path[0] == s
        ensures !path[|taken|].manager.Starting?
      {
        StuckForever(path, taken, |taken|, name, c);
        StuckIsNotStarting(path[|taken|], name, c);
      }
    }
  }

  lemma StuckIsNotStarting(s: State, name: string, c: nat)
    requires Stuck(s, name, c)
    ensures !s.manager.Starting?
  {
  }

  // ---------------------------------------------------------------- it happens

  /** One more step at the end of a run. */
  lemma Extend(trace: seq<State>, steps: seq<Step>, step: Step) returns (trace': seq<State>, steps': seq<Step>)
    requires Run(trace, steps) && Enabled(trace[|steps|], step)
    ensures Run(trace', steps') && |trace'| == |trace| + 1 && trace'[|steps'|] == Apply(trace[|steps|], step)
  {
    hide Enabled, Apply;
    trace', steps' := trace + [Apply(trace[|steps|], step)], steps + [step];
    forall i | 0 <= i < |steps'| ensures Enabled(trace'[i], steps'[i]) && trace'[i + 1] == Apply(trace'[i], steps'[i]) {
      if i < |steps| {
        assert trace'[i] == trace[i] && trace'[i + 1] == trace[i + 1] && steps'[i] == steps[i];
      }
    }
  }

  const ALL := [API_SERVER, INTERFACE_MONITOR, OSPF]

  lemma AllStartable()
    ensures Startable(ALL)
  {
    Names();
    assert ALL[1] == INTERFACE_MONITOR && ALL[2] == OSPF;
  }

  /** All three services have been started, as instances 0, 1 and 2. */
  function Running(): State {
    State(
      Free,
      map[API_SERVER.name := 0, INTERFACE_MONITOR.name := 1, OSPF.name := 2],
      map[0 := Instance(API_SERVER, 1, false, false), 1 := Instance(INTERFACE_MONITOR, 1, false, false),
          2 := Instance(OSPF, 1, false, false)],
      Idle, 1, ALL, map[])
  }

  lemma StartAll() returns (trace: seq<State>, steps: seq<Step>)
    ensures Run(trace, steps) && trace[|steps|] == Running()
  {
    AllStartable();
    Names();
    trace, steps := [Init()], [];
    trace, steps := Extend(trace, steps, Receive(ALL));
    trace, steps := Extend(trace, steps, TakeToken);
    trace, steps := Extend(trace, steps, StopsSent);
    trace, steps := Extend(trace, steps, AllGone);
    trace, steps := Extend(trace, steps, StartOne(0));
    trace, steps := Extend(trace, steps, StartOne(1));
    trace, steps := Extend(trace, steps, StartOne(2));
    trace, steps := Extend(trace, steps, PutToken);
  }

  /** A second configuration arrives before OSPF, which asks for the monitor as soon as it runs,
      has got the token: the manager gets it first, and neither ever goes on. */
  lemma DeadlockHappens() returns (trace: seq<State>, steps: seq<Step>)
    ensures Run(trace, steps) && Stuck(trace[|steps|], OSPF.name, 0)
  {
    AllStartable();
    trace, steps := StartAll();
    trace, steps := Extend(trace, steps, CallGet(0, INTERFACE_MONITOR, Some(2)));
    trace, steps := Extend(trace, steps, Receive(ALL));
    trace, steps := Extend(trace, steps, TakeToken);
  }
}
