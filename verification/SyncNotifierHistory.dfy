// What the callers of a Notifier see over a whole run: the values and their numbers are read
// off the steps of the run, not off the state.

module SyncNotifierHistory {
  import opened SyncNotifier

  /** The values so far, each at the place of its number: the initial one, and then those of
      the notifications in the order in which they take the state. */
  function Values<T>(trace: seq<State<T>>, steps: seq<Step<T>>, v: T, i: nat): (vs: seq<T>)
    requires |trace| == |steps| + 1 && i <= |steps|
    ensures vs != []
  {
    if i == 0 then [v]
    else Values(trace, steps, v, i - 1) + Publishes(trace[i - 1], steps[i - 1])
  }

  function Publishes<T>(s: State<T>, step: Step<T>): seq<T> {
    if step.Take? && step.id in s.procs && s.procs[step.id].NotifyWaiting? then [s.procs[step.id].v] else []
  }

  /** In step k, AwaitChange takes the state for a listener that asked for a number. */
  predicate AwaitTakes<T(==)>(trace: seq<State<T>>, steps: seq<Step<T>>, k: nat, id: nat, asked: int) {
    && k < |steps| && k < |trace| && steps[k] == Take(id)
    && id in trace[k].procs && trace[k].procs[id] == AwaitWaiting(asked)
  }

  predicate LastTakes<T(==)>(trace: seq<State<T>>, steps: seq<Step<T>>, k: nat, id: nat) {
    k < |steps| && k < |trace| && steps[k] == Take(id) && id in trace[k].procs && trace[k].procs[id] == LastWaiting
  }

  /** The listener makes no other call after step k and before i. */
  predicate SameCall<T(==)>(steps: seq<Step<T>>, k: nat, i: nat, id: nat) {
    forall j :: k < j < i && j < |steps| ==> steps[j] != CallAgain(id)
  }

  // ---------------------------------------------------------------- state and history

  lemma OneStep<T(!new)>(trace: seq<State<T>>, steps: seq<Step<T>>, v: T, i: nat)
    requires Run(trace, steps, v) && i < |steps|
    ensures Inv(trace[i]) && Enabled(trace[i], steps[i]) && trace[i + 1] == Apply(trace[i], steps[i])
  {
    RunInv(trace, steps, v, i);
  }

  lemma PublishedStep<T(!new)>(s: State<T>, step: Step<T>)
    requires Enabled(s, step)
    ensures Apply(s, step).published == s.published + Publishes(s, step)
  {
  }

  lemma {:induction false} PublishedIs<T(!new)>(trace: seq<State<T>>, steps: seq<Step<T>>, v: T, i: nat)
    requires Run(trace, steps, v) && i < |trace|
    ensures trace[i].published == Values(trace, steps, v, i)
  {
    hide Apply, Enabled, Publishes, Inv;
    if i > 0 {
      PublishedIs(trace, steps, v, i - 1);
      OneStep(trace, steps, v, i - 1);
      PublishedStep(trace[i - 1], steps[i - 1]);
    }
  }

  /** A call that saw number n: what it holds, waits with or has returned. */
  predicate Saw<T>(p: Proc<T>, n: int, asked: int) {
    match p
    case AwaitHolding(st, a) => a == asked && st.seq_ == n
    case Selecting(a, q, _) => a == asked && q == n
    case Returned(a, q, _) => a == asked && q == if n == asked then n + 1 else n
    case Cancelled(a, q, _) => a == asked && q == n
    case LastHolding(st) => st.seq_ == n
    case LastReturned(q, _) => q == n
    case _ => false
  }

  lemma SawTake<T(!new)>(s: State<T>, id: nat)
    requires Inv(s) && Enabled(s, Take(id)) && !s.procs[id].NotifyWaiting?
    ensures var p' := Apply(s, Take(id)).procs[id];
      && (s.procs[id].AwaitWaiting? ==> p'.AwaitHolding? && Saw(p', |s.published| - 1, s.procs[id].asked))
      && (s.procs[id].LastWaiting? ==> p'.LastHolding? && Saw(p', |s.published| - 1, 0))
  {
    assert OneHolder(s) && SharedOk(s, s.state.value);
  }

  lemma ProcsOk<T(!new)>(s: State<T>, id: nat)
    requires Inv(s) && id in s.procs
    ensures ProcOk(s, id)
  {
  }

  lemma OthersStay<T(!new)>(s: State<T>, step: Step<T>, id: nat)
    requires Enabled(s, step) && step.id != id && id in s.procs
    ensures id in Apply(s, step).procs && Apply(s, step).procs[id] == s.procs[id]
  {
    hide TakeState, ReleaseState, NewCall;
    match step
    case Take(_) => OthersTake(s, step.id, id);
    case Release(_) => OthersRelease(s, step.id, id);
    case CallAwait(_, asked) => OthersCall(s, step.id, asked, id);
    case CallAgain(_) => OthersCall(s, step.id, s.procs[step.id].seq_, id);
    case _ =>
  }

  lemma OthersTake<T(!new)>(s: State<T>, own: nat, id: nat)
    requires Enabled(s, Take(own)) && own != id && id in s.procs
    ensures id in TakeState(s, own).procs && TakeState(s, own).procs[id] == s.procs[id]
  {
  }

  lemma OthersRelease<T(!new)>(s: State<T>, own: nat, id: nat)
    requires Enabled(s, Release(own)) && own != id && id in s.procs
    ensures id in ReleaseState(s, own).procs && ReleaseState(s, own).procs[id] == s.procs[id]
  {
  }

  lemma OthersCall<T(!new)>(s: State<T>, own: nat, asked: int, id: nat)
    requires own != id && id in s.procs
    ensures id in NewCall(s, own, asked).procs && NewCall(s, own, asked).procs[id] == s.procs[id]
  {
  }

  lemma OwnSawStep<T(!new)>(s: State<T>, step: Step<T>, n: int, asked: int)
    requires step.id in s.procs && ProcOk(s, step.id) && Enabled(s, step) && step != CallAgain(step.id)
    requires Saw(s.procs[step.id], n, asked)
    ensures step.id in Apply(s, step).procs && Saw(Apply(s, step).procs[step.id], n, asked)
    ensures s.procs[step.id].LastHolding? || s.procs[step.id].LastReturned? ==>
      Apply(s, step).procs[step.id].LastHolding? || Apply(s, step).procs[step.id].LastReturned?
  {
    hide Continues, Published, Increasing, SharedOk;
  }

  lemma SawStep<T(!new)>(s: State<T>, step: Step<T>, id: nat, n: int, asked: int)
    requires Inv(s) && Enabled(s, step) && step != CallAgain(id)
    requires id in s.procs && Saw(s.procs[id], n, asked)
    ensures id in Apply(s, step).procs && Saw(Apply(s, step).procs[id], n, asked)
    ensures s.procs[id].LastHolding? || s.procs[id].LastReturned? ==>
      Apply(s, step).procs[id].LastHolding? || Apply(s, step).procs[id].LastReturned?
  {
    hide Inv, ProcOk, Continues, Published, Increasing;
    ProcsOk(s, id);
    if step.id == id {
      OwnSawStep(s, step, n, asked);
    } else {
      OthersStay(s, step, id);
    }
  }

  lemma {:induction false} SawAt<T(!new)>(trace: seq<State<T>>, steps: seq<Step<T>>, v: T, k: nat, i: nat, id: nat,
        asked: int)
    requires Run(trace, steps, v) && k < i < |trace| && SameCall(steps, k, i, id)
    requires AwaitTakes(trace, steps, k, id, asked)
    ensures id in trace[i].procs && Saw(trace[i].procs[id], |Values(trace, steps, v, k)| - 1, asked)
  {
    hide Apply, Enabled, Saw, Values, Inv;
    OneStep(trace, steps, v, i - 1);
    if k == i - 1 {
      PublishedIs(trace, steps, v, k);
      SawTake(trace[k], id);
      TakeKeeps(trace[k], id);
    } else {
      SawAt(trace, steps, v, k, i - 1, id, asked);
      SawStep(trace[i - 1], steps[i - 1], id, |Values(trace, steps, v, k)| - 1, asked);
    }
  }

  lemma TakeKeeps<T(!new)>(s: State<T>, id: nat)
    requires Enabled(s, Take(id))
    ensures id in s.procs && id in Apply(s, Take(id)).procs
  {
  }

  lemma {:induction false} LastSawAt<T(!new)>(trace: seq<State<T>>, steps: seq<Step<T>>, v: T, k: nat, i: nat, id: nat)
    requires Run(trace, steps, v) && k < i < |trace| && LastTakes(trace, steps, k, id)
    ensures id in trace[i].procs && Saw(trace[i].procs[id], |Values(trace, steps, v, k)| - 1, 0)
    ensures trace[i].procs[id].LastHolding? || trace[i].procs[id].LastReturned?
  {
    hide Apply, Saw, Values, Inv;
    OneStep(trace, steps, v, i - 1);
    if k == i - 1 {
      PublishedIs(trace, steps, v, k);
      SawTake(trace[k], id);
      TakeKeeps(trace[k], id);
    } else {
      LastSawAt(trace, steps, v, k, i - 1, id);
      SawStep(trace[i - 1], steps[i - 1], id, |Values(trace, steps, v, k)| - 1, 0);
    }
  }

  lemma {:induction false} ValuesGrow<T(!new)>(trace: seq<State<T>>, steps: seq<Step<T>>, v: T, a: nat, b: nat)
    requires Run(trace, steps, v) && a <= b < |trace|
    ensures Values(trace, steps, v, a) <= Values(trace, steps, v, b)
  {
    if a < b {
      ValuesGrow(trace, steps, v, a, b - 1);
    }
  }

  // ---------------------------------------------------------------- what the calls return

  /** What AwaitChange returns. With the number n current when it takes the state: if it asked
      for another number, n and its value, and otherwise n + 1 and its value, also when more
      have been published since; and n and its value when it is cancelled. */
  lemma AwaitReturns<T(!new)>(trace: seq<State<T>>, steps: seq<Step<T>>, v: T, k: nat, i: nat, id: nat, asked: int)
    requires Run(trace, steps, v) && k < i < |trace| && SameCall(steps, k, i, id)
    requires AwaitTakes(trace, steps, k, id, asked) && id in trace[i].procs
    ensures var n, p, vs := |Values(trace, steps, v, k)| - 1, trace[i].procs[id], Values(trace, steps, v, i);
      var q := if asked == n then n + 1 else n;
      && (p.Returned? ==> q < |vs| && p == Returned(asked, q, vs[q]))
      && (p.Cancelled? ==> n < |vs| && p == Cancelled(asked, n, vs[n]))
  {
    hide Values, Inv, Run;
    SawAt(trace, steps, v, k, i, id, asked);
    if trace[i].procs[id].Returned? || trace[i].procs[id].Cancelled? {
      ReturnedIs(trace, steps, v, i, id);
    }
  }

  lemma ReturnedIs<T(!new)>(trace: seq<State<T>>, steps: seq<Step<T>>, v: T, i: nat, id: nat)
    requires Run(trace, steps, v) && i < |trace| && id in trace[i].procs
    requires trace[i].procs[id].Returned? || trace[i].procs[id].Cancelled? || trace[i].procs[id].LastReturned?
    ensures |trace| == |steps| + 1
    ensures var p, vs := trace[i].procs[id], Values(trace, steps, v, i); p.seq_ < |vs| && vs[p.seq_] == p.val
  {
    hide Values;
    PublishedIs(trace, steps, v, i);
    ReturnedPairsArePublished(trace, steps, v, i, id);
  }

  /** What LastChange returns: the number current when it takes the state, and its value. */
  lemma LastReturns<T(!new)>(trace: seq<State<T>>, steps: seq<Step<T>>, v: T, k: nat, i: nat, id: nat)
    requires Run(trace, steps, v) && k < i < |trace| && LastTakes(trace, steps, k, id)
    requires id in trace[i].procs && trace[i].procs[id].LastReturned?
    ensures var n := |Values(trace, steps, v, k)| - 1;
      trace[i].procs[id] == LastReturned(n, Values(trace, steps, v, k)[n])
  {
    hide Values, Inv, Run;
    LastSawAt(trace, steps, v, k, i, id);
    ReturnedIs(trace, steps, v, i, id);
    ValuesGrow(trace, steps, v, k, i);
  }

  /** When AwaitChange can return, while no call has the state: exactly if it asked for a
      number that was not current, or something has been published since. */
  lemma WakesIff<T(!new)>(trace: seq<State<T>>, steps: seq<Step<T>>, v: T, k: nat, i: nat, id: nat, asked: int)
    requires Run(trace, steps, v) && k < i < |trace| && SameCall(steps, k, i, id)
    requires AwaitTakes(trace, steps, k, id, asked)
    requires id in trace[i].procs && trace[i].procs[id].Selecting? && trace[i].state.Some?
    ensures Enabled(trace[i], Receive(id)) <==>
      asked != |Values(trace, steps, v, k)| - 1 || |Values(trace, steps, v, i)| > |Values(trace, steps, v, k)|
  {
    hide Values, Inv, Continues;
    SawAt(trace, steps, v, k, i, id, asked);
    PublishedIs(trace, steps, v, i);
    ValuesGrow(trace, steps, v, k, i);
    NoLostWakeup(trace, steps, v, i, id);
    SelectingIs(trace, steps, v, i, id);
    var s, p := trace[i], trace[i].procs[id];
    assert p.asked == asked && p.seq_ == |Values(trace, steps, v, k)| - 1;
    if id in s.buffers {
      assert s.buffers[id].seq_ < |s.published|;
    } else {
      assert p.asked == |s.published| - 1;
    }
  }

  lemma SelectingIs<T(!new)>(trace: seq<State<T>>, steps: seq<Step<T>>, v: T, i: nat, id: nat)
    requires Run(trace, steps, v) && i < |trace| && id in trace[i].procs && trace[i].procs[id].Selecting?
    ensures SelectingOk(trace[i], id)
    ensures trace[i].state.Some? ==> !trace[i].notifying
    ensures id !in trace[i].buffers ==> WaiterOk(trace[i], id)
  {
    RunInv(trace, steps, v, i);
    assert ProcOk(trace[i], id);
  }

  /** Every call of AwaitChange that has returned took the state before. */
  lemma {:induction false} AwaitTook<T(!new)>(trace: seq<State<T>>, steps: seq<Step<T>>, v: T, i: nat, id: nat)
    returns (k: nat)
    requires Run(trace, steps, v) && i < |trace| && id in trace[i].procs && Awaiting(trace[i].procs[id])
    ensures k < i && SameCall(steps, k, i, id) && AwaitTakes(trace, steps, k, id, Asked(trace[i].procs[id]))
  {
    hide Apply, Enabled, Inv;
    if i > 0 {
      OneStep(trace, steps, v, i - 1);
      AwaitingStep(trace[i - 1], steps[i - 1], id);
      if steps[i - 1] == Take(id) {
        k := i - 1;
      } else {
        k := AwaitTook(trace, steps, v, i - 1, id);
      }
    }
  }

  /** A call of AwaitChange after it has taken the state. */
  predicate Awaiting<T>(p: Proc<T>) {
    p.AwaitHolding? || p.Selecting? || p.Returned? || p.Cancelled?
  }

  function Asked<T>(p: Proc<T>): int {
    if p.AwaitWaiting? || Awaiting(p) then p.asked else 0
  }

  lemma OthersAbsent<T(!new)>(s: State<T>, step: Step<T>, id: nat)
    requires Enabled(s, step) && step.id != id && id !in s.procs
    ensures id !in Apply(s, step).procs
  {
  }

  lemma OwnTake<T(!new)>(s: State<T>, id: nat)
    requires Enabled(s, Take(id)) && Awaiting(Apply(s, Take(id)).procs[id])
    ensures s.procs[id].AwaitWaiting? && Asked(Apply(s, Take(id)).procs[id]) == Asked(s.procs[id])
  {
  }

  lemma OwnRelease<T(!new)>(s: State<T>, id: nat)
    requires Enabled(s, Release(id)) && Awaiting(Apply(s, Release(id)).procs[id])
    ensures Awaiting(s.procs[id]) && Asked(Apply(s, Release(id)).procs[id]) == Asked(s.procs[id])
  {
  }

  lemma OwnAwaitingStep<T(!new)>(s: State<T>, step: Step<T>)
    requires Enabled(s, step) && step.id in Apply(s, step).procs && Awaiting(Apply(s, step).procs[step.id])
    ensures step.id in s.procs && Asked(Apply(s, step).procs[step.id]) == Asked(s.procs[step.id])
    ensures if step == Take(step.id) then s.procs[step.id].AwaitWaiting?
      else Awaiting(s.procs[step.id]) && step != CallAgain(step.id)
  {
    hide ReleaseState, TakeState;
    match step
    case Take(id) => OwnTake(s, id);
    case Release(id) => OwnRelease(s, id);
    case _ =>
  }

  lemma AwaitingStep<T(!new)>(s: State<T>, step: Step<T>, id: nat)
    requires Enabled(s, step) && id in Apply(s, step).procs && Awaiting(Apply(s, step).procs[id])
    ensures id in s.procs && Asked(Apply(s, step).procs[id]) == Asked(s.procs[id])
    ensures if step == Take(id) then s.procs[id].AwaitWaiting? else Awaiting(s.procs[id]) && step != CallAgain(id)
  {
    if step.id == id {
      OwnAwaitingStep(s, step);
    } else if id in s.procs {
      OthersStay(s, step, id);
    } else {
      OthersAbsent(s, step, id);
    }
  }

  // ---------------------------------------------------------------- what the calls carry

  /** A call of NotifyChange publishes the value it was made with, and a call of AwaitChange
      asks for the number it was made with, or for the one returned last. */
  predicate CalledWith<T(==)>(trace: seq<State<T>>, steps: seq<Step<T>>, j: nat, id: nat, p: Proc<T>) {
    && j < |steps| && j < |trace|
    && match p
       case NotifyWaiting(v) => steps[j] == CallNotify(id, v)
       case NotifyHolding(_, v, _) => steps[j] == CallNotify(id, v)
       case AwaitWaiting(asked) =>
         || steps[j] == CallAwait(id, asked)
         || (steps[j] == CallAgain(id) && id in trace[j].procs && trace[j].procs[id].Returned? &&
             trace[j].procs[id].seq_ == asked)
       case _ => true
  }

  lemma CallStep<T(!new)>(trace: seq<State<T>>, steps: seq<Step<T>>, v: T, i: nat, id: nat)
    requires Run(trace, steps, v) && i < |steps| && id in trace[i + 1].procs
    ensures CalledWith(trace, steps, i, id, trace[i + 1].procs[id]) ||
      (id in trace[i].procs && forall j :: CalledWith(trace, steps, j, id, trace[i].procs[id]) ==>
         CalledWith(trace, steps, j, id, trace[i + 1].procs[id]))
  {
    assert Enabled(trace[i], steps[i]) && trace[i + 1] == Apply(trace[i], steps[i]);
  }

  lemma {:induction false} CallsKept<T(!new)>(trace: seq<State<T>>, steps: seq<Step<T>>, v: T, i: nat, id: nat)
    returns (j: nat)
    requires Run(trace, steps, v) && i < |trace| && id in trace[i].procs
    ensures j < i && CalledWith(trace, steps, j, id, trace[i].procs[id])
  {
    hide CalledWith;
    if i > 0 {
      CallStep(trace, steps, v, i - 1, id);
      if CalledWith(trace, steps, i - 1, id, trace[i].procs[id]) {
        j := i - 1;
      } else {
        j := CallsKept(trace, steps, v, i - 1, id);
      }
    }
  }

  /** No deadlock: as long as some call waits for the state or holds it, some call can take it,
      signal a waiter, or return it. */
  lemma NeverStuck<T(!new)>(trace: seq<State<T>>, steps: seq<Step<T>>, v: T, i: nat, id: nat)
    requires Run(trace, steps, v) && i < |trace| && id in trace[i].procs
    requires Waiting(trace[i].procs[id]) || Holding(trace[i].procs[id])
    ensures exists step :: Enabled(trace[i], step) && (step.Take? || step.SignalNext? || step.Release?)
  {
    hide ProcOk, SharedOk, WaiterOk;
    RunInv(trace, steps, v, i);
    var s := trace[i];
    if s.state.Some? {
      assert Enabled(s, Take(id));
    } else {
      var h :| OnlyHolder(s, h);
      SendsNeverBlock(trace, steps, v, i, h);
      assert Enabled(s, SignalNext(h)) || Enabled(s, Release(h));
    }
  }
}
