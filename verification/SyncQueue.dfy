// The unbounded queue made of two one-slot channels, under every interleaving of its
// goroutines. Each receive or send on a channel is one step.

module SyncQueue {
  import opened Prelude

  /** Where a goroutine stands in Put or Get. */
  datatype Proc<T> =
    | PutWaiting(item: T)                    // in Put's select
    | PutHolding(contents: seq<T>, item: T)  // has received the contents, about to send them back
    | PutDone
    | GetWaiting                             // in Get's select
    | GetHolding(contents: seq<T>)
    | GetDone(item: T)
    | GetCancelled

  /** items and empty are the buffers of the two channels; puts and gets record, in order, the
      items that Put has sent and that Get has taken off. */
  datatype State<T> = State(
    items: Option<seq<T>>,
    empty: bool,
    procs: map<nat, Proc<T>>,
    puts: seq<T>,
    gets: seq<T>)

  datatype Step<T> =
    | CallPut(id: nat, item: T)
    | CallGet(id: nat)
    | PutTakeItems(id: nat)
    | PutTakeEmpty(id: nat)
    | PutSend(id: nat)
    | GetTake(id: nat)
    | GetCancel(id: nat)
    | GetSend(id: nat)

  /** NewQueue. */
  function Init<T>(): State<T> {
    State(None, true, map[], [], [])
  }

  predicate Holding<T>(p: Proc<T>) {
    p.PutHolding? || p.GetHolding?
  }

  /** Whether a step can be taken: a receive needs a full channel, a send an empty one. */
  predicate Enabled<T>(s: State<T>, step: Step<T>) {
    match step
    case CallPut(id, _) => id !in s.procs
    case CallGet(id) => id !in s.procs
    case PutTakeItems(id) => id in s.procs && s.procs[id].PutWaiting? && s.items.Some?
    case PutTakeEmpty(id) => id in s.procs && s.procs[id].PutWaiting? && s.empty
    case PutSend(id) => id in s.procs && s.procs[id].PutHolding? && s.items.None?
    case GetTake(id) => id in s.procs && s.procs[id].GetWaiting? && s.items.Some?
    case GetCancel(id) => id in s.procs && s.procs[id].GetWaiting?
    case GetSend(id) =>
      && id in s.procs && s.procs[id].GetHolding?
      && s.procs[id].contents != []  // items[0] is in range
      && (if |s.procs[id].contents| == 1 then !s.empty else s.items.None?)
  }

  function Apply<T>(s: State<T>, step: Step<T>): State<T>
    requires Enabled(s, step)
  {
    match step
    case CallPut(id, item) => s.(procs := s.procs[id := PutWaiting(item)])
    case CallGet(id) => s.(procs := s.procs[id := GetWaiting])
    case PutTakeItems(id) =>
      s.(items := None, procs := s.procs[id := PutHolding(s.items.value, s.procs[id].item)])
    case PutTakeEmpty(id) =>
      s.(empty := false, procs := s.procs[id := PutHolding([], s.procs[id].item)])
    case PutSend(id) =>
      var p := s.procs[id];
      s.(items := Some(p.contents + [p.item]), procs := s.procs[id := PutDone], puts := s.puts + [p.item])
    case GetTake(id) => s.(items := None, procs := s.procs[id := GetHolding(s.items.value)])
    case GetCancel(id) => s.(procs := s.procs[id := GetCancelled])
    case GetSend(id) =>
      var item, rest := s.procs[id].contents[0], s.procs[id].contents[1..];
      var s' := s.(procs := s.procs[id := GetDone(item)], gets := s.gets + [item]);
      if rest == [] then s'.(empty := true) else s'.(items := Some(rest))
  }

  // ---------------------------------------------------------------- the invariant

  /** What the queue holds, wherever it is at the moment. */
  ghost predicate Contents<T(!new)>(s: State<T>, c: seq<T>) {
    || (s.items == Some(c) && c != [] && !s.empty && NoHolder(s))
    || (s.items.None? && s.empty && c == [] && NoHolder(s))
    || (s.items.None? && !s.empty && exists id :: OnlyHolder(s, id) && s.procs[id].contents == c)
  }

  ghost predicate NoHolder<T>(s: State<T>) {
    forall id :: id in s.procs ==> !Holding(s.procs[id])
  }

  ghost predicate OnlyHolder<T>(s: State<T>, id: nat) {
    && id in s.procs && Holding(s.procs[id])
    && (s.procs[id].GetHolding? ==> s.procs[id].contents != [])
    && forall other :: other in s.procs && other != id ==> !Holding(s.procs[other])
  }

  /** Exactly one of: items holds a non-empty slice; empty holds true; one goroutine owns the
      contents. What was put is what was got followed by the contents. */
  ghost predicate Inv<T(!new)>(s: State<T>) {
    exists c :: Contents(s, c) && s.puts == s.gets + c
  }

  lemma InitInv<T(!new)>()
    ensures Inv(Init<T>())
  {
    var s: State<T> := Init();
    assert Contents(s, []) && s.puts == s.gets + [];
  }

  /** The step takes a queue that holds c to one that holds c'. */
  ghost predicate AtomicStep<T(!new)>(s: State<T>, step: Step<T>, c: seq<T>, c': seq<T>)
    requires Enabled(s, step)
  {
    match step
    case PutSend(id) => c' == c + [s.procs[id].item]
    case GetSend(id) => c != [] && Apply(s, step).procs[id] == GetDone(c[0]) && c' == c[1..]
    case _ => c' == c
  }

  /** Seen from outside, a step is nothing, one atomic Put, or one atomic Get. */
  lemma StepRefines<T(!new)>(s: State<T>, step: Step<T>, c: seq<T>) returns (c': seq<T>)
    requires Enabled(s, step) && Contents(s, c)
    ensures Contents(Apply(s, step), c') && AtomicStep(s, step, c, c')
  {
    var s' := Apply(s, step);
    match step
    case PutSend(id) => c' := c + [s.procs[id].item]; assert NoHolder(s');
    case GetSend(id) => c' := c[1..]; assert NoHolder(s');
    case PutTakeItems(id) => c' := c; assert OnlyHolder(s', id);
    case PutTakeEmpty(id) => c' := c; assert OnlyHolder(s', id);
    case GetTake(id) => c' := c; assert OnlyHolder(s', id);
    case _ =>
      c' := c;
      if id :| OnlyHolder(s, id) {
        assert OnlyHolder(s', id) && s'.procs[id] == s.procs[id];
      }
  }

  lemma StepInv<T(!new)>(s: State<T>, step: Step<T>)
    requires Inv(s) && Enabled(s, step)
    ensures Inv(Apply(s, step))
  {
    var c :| Contents(s, c) && s.puts == s.gets + c;
    var c' := StepRefines(s, step, c);
    var s' := Apply(s, step);
    if step.GetSend? {
      assert s.gets + c == s.gets + [c[0]] + c[1..];
    } else if step.PutSend? {
      assert s'.puts == s.gets + (c + [s.procs[step.id].item]);
    }
    assert s'.puts == s'.gets + c';
  }

  // ---------------------------------------------------------------- every run

  ghost predicate Run<T>(trace: seq<State<T>>, steps: seq<Step<T>>) {
    && |trace| == |steps| + 1
    && trace[0] == Init()
    && forall i :: 0 <= i < |steps| ==> Enabled(trace[i], steps[i]) && trace[i + 1] == Apply(trace[i], steps[i])
  }

  lemma {:induction false} RunInv<T(!new)>(trace: seq<State<T>>, steps: seq<Step<T>>, i: nat)
    requires Run(trace, steps) && i < |trace|
    ensures Inv(trace[i])
  {
    if i == 0 {
      InitInv<T>();
    } else {
      RunInv(trace, steps, i - 1);
      StepInv(trace[i - 1], steps[i - 1]);
    }
  }

  /** Whoever owns the contents can always hand them on: the put-back sends never block, and
      Get never indexes an empty slice. */
  lemma HolderNeverBlocks<T(!new)>(trace: seq<State<T>>, steps: seq<Step<T>>, i: nat, id: nat)
    requires Run(trace, steps) && i < |trace| && id in trace[i].procs
    ensures trace[i].procs[id].PutHolding? ==> Enabled(trace[i], PutSend(id))
    ensures trace[i].procs[id].GetHolding? ==> Enabled(trace[i], GetSend(id))
  {
    RunInv(trace, steps, i);
  }

  /** Gets return the items put, in order, none lost and none twice; what has not been
      returned is in the queue; and a call of Get that returned an item returned the item
      that was then the oldest. */
  lemma QueueIsFifo<T(!new)>(trace: seq<State<T>>, steps: seq<Step<T>>, i: nat) returns (c: seq<T>)
    requires Run(trace, steps) && i < |trace|
    ensures Contents(trace[i], c) && trace[i].puts == trace[i].gets + c
    ensures i < |steps| && steps[i].GetSend? ==>
      c != [] && trace[i + 1].procs[steps[i].id] == GetDone(c[0]) && trace[i + 1].gets == trace[i].gets + [c[0]]
    ensures i < |steps| && steps[i].GetCancel? ==>
      trace[i + 1].gets == trace[i].gets && Contents(trace[i + 1], c)
  {
    RunInv(trace, steps, i);
    c :| Contents(trace[i], c) && trace[i].puts == trace[i].gets + c;
    if i < |steps| {
      var c' := StepRefines(trace[i], steps[i], c);
    }
  }

  // ---------------------------------------------------------------- seen from outside

  /** The items that calls of Put have put, in the order in which they were put. */
  function ItemsPut<T>(trace: seq<State<T>>, steps: seq<Step<T>>, i: nat): seq<T>
    requires |trace| == |steps| + 1 && i <= |steps|
  {
    if i == 0 then [] else ItemsPut(trace, steps, i - 1) + Puts(trace[i - 1], steps[i - 1])
  }

  function Puts<T>(s: State<T>, step: Step<T>): seq<T> {
    if step.PutSend? && step.id in s.procs && s.procs[step.id].PutHolding? then [s.procs[step.id].item] else []
  }

  /** The items that calls of Get have returned, in the order in which they returned. */
  function ItemsGot<T>(trace: seq<State<T>>, steps: seq<Step<T>>, i: nat): seq<T>
    requires |trace| == |steps| + 1 && i <= |steps|
  {
    if i == 0 then [] else ItemsGot(trace, steps, i - 1) + Gets(steps[i - 1], trace[i])
  }

  function Gets<T>(step: Step<T>, s': State<T>): seq<T> {
    if step.GetSend? && step.id in s'.procs && s'.procs[step.id].GetDone? then [s'.procs[step.id].item] else []
  }

  lemma {:induction false} HistoryIs<T(!new)>(trace: seq<State<T>>, steps: seq<Step<T>>, i: nat)
    requires Run(trace, steps) && i < |trace|
    ensures trace[i].puts == ItemsPut(trace, steps, i) && trace[i].gets == ItemsGot(trace, steps, i)
  {
    if i > 0 {
      HistoryIs(trace, steps, i - 1);
      RecordStep(trace[i - 1], steps[i - 1]);
    }
  }

  lemma RecordStep<T(!new)>(s: State<T>, step: Step<T>)
    requires Enabled(s, step)
    ensures Apply(s, step).puts == s.puts + Puts(s, step)
    ensures Apply(s, step).gets == s.gets + Gets(step, Apply(s, step))
  {
  }

  /** The items returned are always the first of those put; and while no call owns the
      contents, a waiting Get can go on exactly as long as some have not been returned. */
  lemma GotInOrder<T(!new)>(trace: seq<State<T>>, steps: seq<Step<T>>, i: nat, id: nat)
    requires Run(trace, steps) && i < |trace|
    ensures ItemsGot(trace, steps, i) <= ItemsPut(trace, steps, i)
    ensures NoHolder(trace[i]) && id in trace[i].procs && trace[i].procs[id].GetWaiting? ==>
      (Enabled(trace[i], GetTake(id)) <==> |ItemsGot(trace, steps, i)| < |ItemsPut(trace, steps, i)|)
  {
    hide ItemsPut, ItemsGot;
    RunInv(trace, steps, i);
    HistoryIs(trace, steps, i);
    var c :| Contents(trace[i], c) && trace[i].puts == trace[i].gets + c;
  }

  /** A call of Put puts the item that it was made with. */
  lemma {:induction false} PutsItsItem<T(!new)>(trace: seq<State<T>>, steps: seq<Step<T>>, i: nat, id: nat)
    requires Run(trace, steps) && i < |trace| && id in trace[i].procs
    ensures trace[i].procs[id].PutWaiting? || trace[i].procs[id].PutHolding? ==>
      CallPut(id, trace[i].procs[id].item) in steps[..i]
  {
    if i > 0 {
      if trace[i].procs[id].PutWaiting? || trace[i].procs[id].PutHolding? {
        ItemStep(trace[i - 1], steps[i - 1], id);
      }
      assert steps[..i] == steps[..i - 1] + [steps[i - 1]];
      if id in trace[i - 1].procs {
        PutsItsItem(trace, steps, i - 1, id);
      }
    }
  }

  lemma ItemStep<T(!new)>(s: State<T>, step: Step<T>, id: nat)
    requires Enabled(s, step) && id in Apply(s, step).procs
    requires Apply(s, step).procs[id].PutWaiting? || Apply(s, step).procs[id].PutHolding?
    ensures var item := Apply(s, step).procs[id].item;
      || step == CallPut(id, item)
      || (id in s.procs && (s.procs[id].PutWaiting? || s.procs[id].PutHolding?) && s.procs[id].item == item)
  {
  }

  /** No deadlock: as long as some call is about to put an item or owns the contents, some call
      can take the contents or send them back. */
  lemma NeverStuck<T(!new)>(trace: seq<State<T>>, steps: seq<Step<T>>, i: nat, id: nat)
    requires Run(trace, steps) && i < |trace| && id in trace[i].procs
    requires trace[i].procs[id].PutWaiting? || Holding(trace[i].procs[id])
    ensures exists step ::
      Enabled(trace[i], step) && (step.PutTakeItems? || step.PutTakeEmpty? || step.PutSend? || step.GetSend?)
  {
    RunInv(trace, steps, i);
    var s := trace[i];
    var c :| Contents(s, c) && s.puts == s.gets + c;
    if Holding(s.procs[id]) {
      HolderNeverBlocks(trace, steps, i, id);
      assert Enabled(s, PutSend(id)) || Enabled(s, GetSend(id));
    } else if h :| OnlyHolder(s, h) {
      HolderNeverBlocks(trace, steps, i, h);
      assert Enabled(s, PutSend(h)) || Enabled(s, GetSend(h));
    } else {
      assert Enabled(s, PutTakeItems(id)) || Enabled(s, PutTakeEmpty(id));
    }
  }
}
