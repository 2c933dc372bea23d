// What the callers of a QueuedNotifier see over a whole run: the values published, received
// and registered for are read off the steps of the run, not off the state.

module SyncQueuedHistory {
  import opened SyncQueuedNotifier

  // ---------------------------------------------------------------- histories

  /** The values of the notifications, in the order in which they take the map. */
  function Published<T>(trace: seq<State<T>>, steps: seq<Step<T>>, i: nat): seq<T>
    requires |trace| == |steps| + 1 && i <= |steps|
  {
    if i == 0 then []
    else Published(trace, steps, i - 1) + Publishes(trace[i - 1], steps[i - 1])
  }

  function Publishes<T>(s: State<T>, step: Step<T>): seq<T> {
    if step.Take? && step.id in s.procs && s.procs[step.id].NotifyWaiting? then [s.procs[step.id].v] else []
  }

  /** The values that calls of AwaitChange for t have returned, in order. */
  function ReceivedBy<T>(trace: seq<State<T>>, steps: seq<Step<T>>, i: nat, t: Token): seq<T>
    requires |trace| == |steps| + 1 && i <= |steps|
  {
    if i == 0 then []
    else ReceivedBy(trace, steps, i - 1, t) + Returns(trace[i - 1], steps[i - 1], trace[i], t)
  }

  function Returns<T>(s: State<T>, step: Step<T>, s': State<T>, t: Token): seq<T> {
    if step.Get? && step.id in s'.procs && s'.procs[step.id].Received? && s'.procs[step.id].token == t
    then [s'.procs[step.id].v] else []
  }

  /** In step r a call of Register returns the map with t in it. */
  predicate Registers<T(==)>(trace: seq<State<T>>, steps: seq<Step<T>>, r: nat, t: Token) {
    && r < |steps| && r < |trace| && steps[r].Release? && steps[r].id in trace[r].procs
    && trace[r].procs[steps[r].id] == RegisterHolding(t)
  }

  /** In step u a call of Unregister returns the map without t in it. */
  predicate Unregisters<T(==)>(trace: seq<State<T>>, steps: seq<Step<T>>, u: nat, t: Token) {
    && u < |steps| && u < |trace| && steps[u].Release? && steps[u].id in trace[u].procs
    && trace[u].procs[steps[u].id] == UnregisterHolding(t)
  }

  /** No step from a on and before b unregisters t. */
  predicate StaysRegistered<T(==)>(trace: seq<State<T>>, steps: seq<Step<T>>, a: nat, b: nat, t: Token) {
    forall u :: a <= u < b ==> !Unregisters(trace, steps, u, t)
  }

  // ---------------------------------------------------------------- state and history

  lemma OneStep<T(!new)>(trace: seq<State<T>>, steps: seq<Step<T>>, i: nat)
    requires Run(trace, steps) && i < |steps|
    ensures Enabled(trace[i], steps[i]) && trace[i + 1] == Apply(trace[i], steps[i])
    ensures Inv(trace[i])
  {
    RunInv(trace, steps, i);
  }

  lemma RunLength<T(!new)>(trace: seq<State<T>>, steps: seq<Step<T>>)
    requires Run(trace, steps)
    ensures |trace| == |steps| + 1
  {
  }

  lemma LogStep<T(!new)>(s: State<T>, step: Step<T>)
    requires Enabled(s, step)
    ensures Apply(s, step).log == s.log + Publishes(s, step)
  {
  }

  lemma {:induction false} LogIs<T(!new)>(trace: seq<State<T>>, steps: seq<Step<T>>, i: nat)
    requires Run(trace, steps) && i < |trace|
    ensures trace[i].log == Published(trace, steps, i)
  {
    if i > 0 {
      LogIs(trace, steps, i - 1);
      OneStep(trace, steps, i - 1);
      LogStep(trace[i - 1], steps[i - 1]);
    }
  }

  lemma DeliveredStep<T(!new)>(s: State<T>, step: Step<T>, t: Token)
    requires Maps(s) && Enabled(s, step)
    ensures var s' := Apply(s, step);
      && (t in s.delivered ==> t in s'.delivered && s'.delivered[t] == s.delivered[t] + Returns(s, step, s', t))
      && (t !in s.delivered ==> Returns(s, step, s', t) == [] && (t in s'.delivered ==> s'.delivered[t] == []))
  {
  }

  lemma {:induction false} DeliveredIs<T(!new)>(trace: seq<State<T>>, steps: seq<Step<T>>, i: nat, t: Token)
    requires Run(trace, steps) && i < |trace|
    ensures ReceivedBy(trace, steps, i, t) == if t in trace[i].delivered then trace[i].delivered[t] else []
  {
    if i > 0 {
      DeliveredIs(trace, steps, i - 1, t);
      OneStep(trace, steps, i - 1);
      DeliveredStep(trace[i - 1], steps[i - 1], t);
    }
  }

  lemma FromStep<T(!new)>(trace: seq<State<T>>, steps: seq<Step<T>>, i: nat, t: Token)
    requires Run(trace, steps) && i < |steps|
    ensures var s, s' := trace[i], trace[i + 1];
      && (Registers(trace, steps, i, t) ==>
            t !in s.from && t in s'.from && s'.from[t] == |s.log| && t in s'.registered)
      && (!Registers(trace, steps, i, t) ==>
            && (t in s'.from <==> t in s.from) && (t in s.from ==> s'.from[t] == s.from[t])
            && (t in s'.registered <==> t in s.registered && !Unregisters(trace, steps, i, t)))
      && (t in s'.upto <==> t in s.upto || (Unregisters(trace, steps, i, t) && t in s.registered))
      && (t in s.upto ==> s'.upto[t] == s.upto[t])
      && (t !in s.upto && t in s'.upto ==> s'.upto[t] == |s.log|)
  {
    OneStep(trace, steps, i);
    if steps[i].Release? {
      assert ProcInv(trace[i], steps[i].id);
    }
  }

  lemma RunMaps<T(!new)>(trace: seq<State<T>>, steps: seq<Step<T>>, i: nat)
    requires Run(trace, steps) && i < |trace|
    ensures |trace| == |steps| + 1 && Maps(trace[i])
  {
    RunInv(trace, steps, i);
  }

  lemma NotTwice<T(!new)>(trace: seq<State<T>>, steps: seq<Step<T>>, i: nat, t: Token)
    requires Run(trace, steps) && i < |steps| && t in trace[i].from
    ensures !Registers(trace, steps, i, t)
  {
    if Registers(trace, steps, i, t) {
      FromStep(trace, steps, i, t);
    }
  }

  lemma StaysStep<T(!new)>(trace: seq<State<T>>, steps: seq<Step<T>>, a: nat, b: nat, t: Token)
    requires a <= b
    ensures StaysRegistered(trace, steps, a, b + 1, t) <==>
      StaysRegistered(trace, steps, a, b, t) && !Unregisters(trace, steps, b, t)
  {
    hide Unregisters;
  }

  lemma StaysAtFirst<T(!new)>(trace: seq<State<T>>, steps: seq<Step<T>>, r: nat, t: Token)
    requires Registers(trace, steps, r, t)
    ensures StaysRegistered(trace, steps, r, r, t) && !Unregisters(trace, steps, r, t)
  {
  }

  /** A listener's part of the notifications starts where its registration returns the map. */
  lemma {:induction false} FromIs<T(!new)>(trace: seq<State<T>>, steps: seq<Step<T>>, r: nat, i: nat, t: Token)
    requires Run(trace, steps) && r < i < |trace| && Registers(trace, steps, r, t)
    ensures t in trace[i].from && trace[i].from[t] == |Published(trace, steps, r)|
    ensures t in trace[i].registered <==> StaysRegistered(trace, steps, r, i, t)
    ensures Maps(trace[i])
  {
    hide Registers, Unregisters, StaysRegistered, Run, Maps, Published;
    RunMaps(trace, steps, i);
    FromStep(trace, steps, i - 1, t);
    StaysStep(trace, steps, r, i - 1, t);
    if r < i - 1 {
      FromIs(trace, steps, r, i - 1, t);
      NotTwice(trace, steps, i - 1, t);
    } else {
      LogIs(trace, steps, r);
      StaysAtFirst(trace, steps, r, t);
    }
  }

  lemma {:induction false} RegisteredFrom<T(!new)>(trace: seq<State<T>>, steps: seq<Step<T>>, i: nat, t: Token)
    returns (r: nat)
    requires Run(trace, steps) && i < |trace| && t in trace[i].from
    ensures r < i && Registers(trace, steps, r, t)
  {
    hide Registers, Unregisters, Run, Maps;
    RunMaps(trace, steps, i);
    if i == 0 {
      NothingRegistered(trace, steps);
    } else {
      FromStep(trace, steps, i - 1, t);
      if Registers(trace, steps, i - 1, t) {
        r := i - 1;
      } else {
        r := RegisteredFrom(trace, steps, i - 1, t);
      }
    }
  }

  lemma NothingRegistered<T(!new)>(trace: seq<State<T>>, steps: seq<Step<T>>)
    requires Run(trace, steps)
    ensures trace != [] && trace[0].from == map[]
  {
  }

  /** t is registered before step i: some step registered it, and none unregistered it since. */
  ghost predicate IsRegistered<T>(trace: seq<State<T>>, steps: seq<Step<T>>, i: nat, t: Token) {
    exists r :: 0 <= r < i && Registers(trace, steps, r, t) && StaysRegistered(trace, steps, r, i, t)
  }

  lemma RegisteredIff<T(!new)>(trace: seq<State<T>>, steps: seq<Step<T>>, i: nat, t: Token)
    requires Run(trace, steps) && i < |trace|
    ensures t in trace[i].registered <==> IsRegistered(trace, steps, i, t)
  {
    hide Registers, StaysRegistered, Run;
    RunMaps(trace, steps, i);
    if t in trace[i].registered {
      var r := RegisteredFrom(trace, steps, i, t);
      FromIs(trace, steps, r, i, t);
    }
    if IsRegistered(trace, steps, i, t) {
      var r :| 0 <= r < i && Registers(trace, steps, r, t) && StaysRegistered(trace, steps, r, i, t);
      FromIs(trace, steps, r, i, t);
    }
  }

  // ---------------------------------------------------------------- what AwaitChange does

  /** AwaitChange waits for a value if the token is registered when it returns the map, and
      otherwise returns at once. */
  lemma AwaitStarts<T(!new)>(trace: seq<State<T>>, steps: seq<Step<T>>, i: nat, t: Token)
    requires Run(trace, steps) && i < |steps| && steps[i].Release? && steps[i].id in trace[i].procs
    requires trace[i].procs[steps[i].id] == AwaitHolding(t)
    ensures steps[i].id in trace[i + 1].procs
    ensures trace[i + 1].procs[steps[i].id] == if IsRegistered(trace, steps, i, t) then Getting(t) else NotRegistered
  {
    hide IsRegistered;
    RegisteredIff(trace, steps, i, t);
    OneStep(trace, steps, i);
  }

  lemma WaitersWereRegistered<T(!new)>(trace: seq<State<T>>, steps: seq<Step<T>>, i: nat, id: nat, t: Token)
    returns (r: nat)
    requires Run(trace, steps) && i < |trace| && id in trace[i].procs && trace[i].procs[id] == Getting(t)
    ensures r < i && Registers(trace, steps, r, t)
  {
    RunInv(trace, steps, i);
    assert ProcInv(trace[i], id);
    r := RegisteredFrom(trace, steps, i, t);
  }

  lemma GetterKnown<T(!new)>(s: State<T>, id: nat, t: Token)
    requires Inv(s) && id in s.procs && s.procs[id] == Getting(t)
    ensures t in s.from && t in s.queues && t in s.delivered && Delivered(s, t)
  {
    hide Delivered;
    assert ProcInv(s, id);
  }

  /** A Get can be taken exactly when a value waits in the queue, and takes the first. */
  lemma GetStep<T(!new)>(s: State<T>, id: nat, t: Token)
    requires id in s.procs && s.procs[id] == Getting(t) && t in s.queues && t in s.delivered
    ensures Enabled(s, Get(id)) <==> s.queues[t] != []
    ensures Enabled(s, Get(id)) ==>
      id in Apply(s, Get(id)).procs && Apply(s, Get(id)).procs[id] == Received(t, s.queues[t][0])
  {
  }

  /** What a call of AwaitChange returns: the first value published since its token was
      registered that no call for the token has returned before. */
  lemma GetReturnsNext<T(!new)>(trace: seq<State<T>>, steps: seq<Step<T>>, r: nat, i: nat, id: nat, t: Token)
    requires Run(trace, steps) && r < i < |steps| && Registers(trace, steps, r, t)
    requires steps[i] == Get(id) && id in trace[i].procs && trace[i].procs[id] == Getting(t)
    ensures var next := |Published(trace, steps, r)| + |ReceivedBy(trace, steps, i, t)|;
      && next < |Published(trace, steps, i)|
      && id in trace[i + 1].procs
      && trace[i + 1].procs[id] == Received(t, Published(trace, steps, i)[next])
  {
    hide Registers, Published, ReceivedBy, Run, Inv, Maps, Delivered, Apply, Enabled, StaysRegistered;
    RunLength(trace, steps);
    OneStep(trace, steps, i);
    GetterKnown(trace[i], id, t);
    GetStep(trace[i], id, t);
    LogIs(trace, steps, i);
    DeliveredIs(trace, steps, i, t);
    FromIs(trace, steps, r, i, t);
    FirstOfSent(trace[i], t);
  }

  lemma FirstOfSent<T(!new)>(s: State<T>, t: Token)
    requires t in s.from && t in s.queues && t in s.delivered && Delivered(s, t) && s.queues[t] != []
    ensures var next := s.from[t] + |s.delivered[t]|; next < |s.log| && s.queues[t][0] == s.log[next]
  {
    hide Pending;
    assert (s.delivered[t] + s.queues[t])[|s.delivered[t]|] == s.queues[t][0];
  }

  lemma {:induction false} PublishedGrows<T(!new)>(trace: seq<State<T>>, steps: seq<Step<T>>, a: nat, b: nat)
    requires Run(trace, steps) && a <= b < |trace|
    ensures Published(trace, steps, a) <= Published(trace, steps, b)
  {
    if a < b {
      PublishedGrows(trace, steps, a, b - 1);
    }
  }

  lemma AllDelivered<T(!new)>(trace: seq<State<T>>, steps: seq<Step<T>>, i: nat, t: Token)
    requires Run(trace, steps) && i < |trace| && t in trace[i].from
    ensures t in trace[i].delivered && t in trace[i].queues && Delivered(trace[i], t)
  {
    RunInv(trace, steps, i);
  }

  /** Unregistering ends a listener's part of the notifications. */
  lemma {:induction false} UptoIs<T(!new)>(trace: seq<State<T>>, steps: seq<Step<T>>, u: nat, i: nat, t: Token)
    requires Run(trace, steps) && u < i < |trace| && Unregisters(trace, steps, u, t) && t in trace[u].from
    ensures t in trace[i].upto && trace[i].upto[t] <= |Published(trace, steps, u)|
  {
    hide Registers, Unregisters, Run, Published, Sent;
    RunMaps(trace, steps, u);
    RunMaps(trace, steps, i);
    FromStep(trace, steps, i - 1, t);
    if u < i - 1 {
      UptoIs(trace, steps, u, i - 1, t);
    } else {
      LogIs(trace, steps, u);
      AllDelivered(trace, steps, u, t);
    }
  }

  lemma PrefixOfLog<T(!new)>(s: State<T>, t: Token, p: seq<T>)
    requires t in s.from && t in s.delivered && t in s.queues && Delivered(s, t)
    requires p <= s.log && s.from[t] <= |p| && (p == s.log || (t in s.upto && s.upto[t] <= |p|))
    ensures s.delivered[t] <= p[s.from[t]..]
  {
    hide Pending;
    assert s.delivered[t] <= Sent(s, t);
    forall i | 0 <= i < |Sent(s, t)| ensures s.from[t] + i < |p| && Sent(s, t)[i] == p[s.from[t] + i] {
    }
  }

  /** What the calls for a token have returned is the beginning of what was published since
      its registration, and for a token that was unregistered, of what was published between. */
  lemma ReceivedInOrder<T(!new)>(trace: seq<State<T>>, steps: seq<Step<T>>, r: nat, u: nat, i: nat, t: Token)
    requires Run(trace, steps) && r < u <= i < |trace| && Registers(trace, steps, r, t)
    requires u == i || Unregisters(trace, steps, u, t)
    ensures |Published(trace, steps, r)| <= |Published(trace, steps, u)|
    ensures ReceivedBy(trace, steps, i, t) <= Published(trace, steps, u)[|Published(trace, steps, r)|..]
  {
    hide Registers, Unregisters, Published, ReceivedBy, Run, Pending, StaysRegistered, Inv, Sent;
    RunMaps(trace, steps, i);
    FromIs(trace, steps, r, i, t);
    FromIs(trace, steps, r, u, t);
    LogIs(trace, steps, u);
    LogIs(trace, steps, i);
    DeliveredIs(trace, steps, i, t);
    AllDelivered(trace, steps, i, t);
    PublishedGrows(trace, steps, r, u);
    PublishedGrows(trace, steps, u, i);
    if u < i {
      UptoIs(trace, steps, u, i, t);
    }
    PrefixOfLog(trace[i], t, Published(trace, steps, u));
  }

  /** Nothing is lost: while a token is registered and no other call has the map, a value can
      be received for it exactly as long as not all that was published since have been. */
  lemma NothingIsLost<T(!new)>(trace: seq<State<T>>, steps: seq<Step<T>>, r: nat, i: nat, id: nat, t: Token)
    requires Run(trace, steps) && r < i < |trace| && Registers(trace, steps, r, t)
    requires StaysRegistered(trace, steps, r, i, t) && trace[i].free
    requires id in trace[i].procs && trace[i].procs[id] == Getting(t)
    ensures Enabled(trace[i], Get(id)) <==>
      |Published(trace, steps, r)| + |ReceivedBy(trace, steps, i, t)| < |Published(trace, steps, i)|
  {
    hide Registers, Published, ReceivedBy, Maps, Pending, Run, StaysRegistered, Inv, Delivered, Enabled, Apply;
    RunMaps(trace, steps, i);
    FromIs(trace, steps, r, i, t);
    LogIs(trace, steps, i);
    DeliveredIs(trace, steps, i, t);
    QueuedDelivery(trace, steps, i, t);
    GetStep(trace[i], id, t);
  }

  // ---------------------------------------------------------------- what the calls carry

  /** The call that a caller is in, or has come back from with a value or a token. */
  function CallOf<T>(id: nat, p: Proc<T>): (call: seq<Step<T>>)
    ensures |call| <= 1
  {
    match p
    case RegisterWaiting(t) => [CallRegister(id, t)]
    case RegisterHolding(t) => [CallRegister(id, t)]
    case Registered(t) => [CallRegister(id, t)]
    case UnregisterWaiting(t) => [CallUnregister(id, t)]
    case UnregisterHolding(t) => [CallUnregister(id, t)]
    case NotifyWaiting(v) => [CallNotify(id, v)]
    case NotifyHolding(v, _) => [CallNotify(id, v)]
    case AwaitWaiting(t) => [CallAwait(id, t)]
    case AwaitHolding(t) => [CallAwait(id, t)]
    case Getting(t) => [CallAwait(id, t)]
    case Received(t, _) => [CallAwait(id, t)]
    case _ => []
  }

  /** A step begins a call, or leaves the caller in the call that it was in, or ends it. */
  lemma CallStep<T(!new)>(s: State<T>, step: Step<T>, id: nat)
    requires Enabled(s, step) && id in Apply(s, step).procs
    ensures var call := CallOf(id, Apply(s, step).procs[id]);
      call == [] || call == [step] || (id in s.procs && call == CallOf(id, s.procs[id]))
  {
  }

  /** Every call works with the token or value that it was made with. */
  lemma {:induction false} CallsKept<T(!new)>(trace: seq<State<T>>, steps: seq<Step<T>>, i: nat, id: nat)
    requires Run(trace, steps) && i < |trace| && id in trace[i].procs
    ensures forall call :: call in CallOf(id, trace[i].procs[id]) ==> call in steps[..i]
  {
    hide CallOf, Apply, Enabled, Inv;
    if i > 0 {
      OneStep(trace, steps, i - 1);
      CallStep(trace[i - 1], steps[i - 1], id);
      assert steps[..i] == steps[..i - 1] + [steps[i - 1]];
      if id in trace[i - 1].procs {
        CallsKept(trace, steps, i - 1, id);
      }
    }
  }

  /** No deadlock: as long as some call waits for the map or holds it, some call can take it,
      put a value on a queue, or return it. */
  lemma NeverStuck<T(!new)>(trace: seq<State<T>>, steps: seq<Step<T>>, i: nat, id: nat)
    requires Run(trace, steps) && i < |trace| && id in trace[i].procs
    requires Waiting(trace[i].procs[id]) || Holding(trace[i].procs[id])
    ensures exists step :: Enabled(trace[i], step) && (step.Take? || step.PutOne? || step.Release?)
  {
    RunInv(trace, steps, i);
    var s := trace[i];
    if s.free {
      assert Enabled(s, Take(id));
    } else {
      var h :| OnlyHolder(s, h);
      assert ProcInv(s, h);
      if s.procs[h].NotifyHolding? && s.procs[h].todo != {} {
        var t :| t in s.procs[h].todo;
        NotifyNeverBlocks(trace, steps, i, h);
        assert Enabled(s, PutOne(h, t));
      } else {
        assert Enabled(s, Release(h));
      }
    }
  }
}
