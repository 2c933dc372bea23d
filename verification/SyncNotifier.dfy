// Notifier under every interleaving of its callers. Its state sits in a one-slot channel;
// receiving it, sending it back, signalling one waiter and receiving a signal are separate
// steps. Listeners call AwaitChange again and again with the number they got last.

module SyncNotifier {
  import opened Prelude

  datatype Signal<T> = Signal(seq_: nat, val: T)

  /** The record in the channel: the current number and value, and the waiters' channels. */
  datatype Shared<T> = Shared(seq_: nat, val: T, wait: seq<nat>)

  /** A listener waits on a channel of its own that has the listener's name; a channel is
      made anew for every call, so its buffer and its count of sends start over. */
  datatype Proc<T> =
    | NotifyWaiting(v: T)
    | NotifyHolding(st: Shared<T>, v: T, next: nat)     // has signalled the first next waiters
    | Notified
    | AwaitWaiting(asked: int)
    | AwaitHolding(st: Shared<T>, asked: int)
    | Selecting(asked: int, seq_: nat, val: T)          // in the select, with the state it saw
    | Returned(asked: int, seq_: nat, val: T)
    | Cancelled(asked: int, seq_: nat, val: T)
    | LastWaiting
    | LastHolding(st: Shared<T>)
    | LastReturned(seq_: nat, val: T)

  /** state is the channel's content; buffers and sends are, per listener, the buffer of its
      channel and how often it was sent to; published lists the values in the order of their
      numbers; history lists, per listener, the numbers its calls returned. waiting lists the
      channels registered and not yet signalled, and notifying tells whether a NotifyChange
      holds the state; both only say what state and procs say, as the invariant states. */
  datatype State<T> = State(
    state: Option<Shared<T>>,
    buffers: map<nat, Signal<T>>,
    sends: map<nat, nat>,
    published: seq<T>,
    history: map<nat, seq<nat>>,
    waiting: seq<nat>,
    notifying: bool,
    procs: map<nat, Proc<T>>)

  datatype Step<T> =
    | CallNotify(id: nat, v: T)
    | CallAwait(id: nat, asked: int)
    | CallAgain(id: nat)
    | CallLast(id: nat)
    | Take(id: nat)
    | SignalNext(id: nat)
    | Release(id: nat)
    | Receive(id: nat)
    | Cancel(id: nat)

  /** NewNotifier. */
  function Init<T>(v: T): State<T> {
    State(Some(Shared(0, v, [])), map[], map[], [v], map[], [], false, map[])
  }

  predicate Waiting<T>(p: Proc<T>) {
    p.NotifyWaiting? || p.AwaitWaiting? || p.LastWaiting?
  }

  predicate Holding<T>(p: Proc<T>) {
    p.NotifyHolding? || p.AwaitHolding? || p.LastHolding?
  }

  predicate Enabled<T>(s: State<T>, step: Step<T>) {
    match step
    case CallNotify(id, _) => id !in s.procs
    case CallAwait(id, _) => id !in s.procs
    case CallAgain(id) => id in s.procs && s.procs[id].Returned? && id in s.history
    case CallLast(id) => id !in s.procs
    case Take(id) => id in s.procs && Waiting(s.procs[id]) && s.state.Some?
    case SignalNext(id) =>
      && id in s.procs && s.procs[id].NotifyHolding? && s.procs[id].next < |s.procs[id].st.wait|
      && s.procs[id].st.wait[s.procs[id].next] !in s.buffers  // the send does not block
    case Release(id) =>
      && id in s.procs && Holding(s.procs[id]) && s.state.None?
      && (s.procs[id].NotifyHolding? ==> s.procs[id].next == |s.procs[id].st.wait|)
      && (s.procs[id].AwaitHolding? ==> id !in s.buffers)
    case Receive(id) => id in s.procs && s.procs[id].Selecting? && id in s.buffers
    case Cancel(id) => id in s.procs && s.procs[id].Selecting?
  }

  function Sends<T>(s: State<T>, c: nat): nat {
    if c in s.sends then s.sends[c] else 0
  }

  function History<T>(s: State<T>, id: nat): seq<nat> {
    if id in s.history then s.history[id] else []
  }

  function Apply<T>(s: State<T>, step: Step<T>): State<T>
    requires Enabled(s, step)
  {
    match step
    case CallNotify(id, v) => s.(procs := s.procs[id := NotifyWaiting(v)])
    case CallAwait(id, asked) => NewCall(s, id, asked)
    case CallAgain(id) => NewCall(s, id, s.procs[id].seq_)
    case CallLast(id) => s.(procs := s.procs[id := LastWaiting])
    case Take(id) => TakeState(s, id)
    case SignalNext(id) =>
      var p := s.procs[id];
      var c := p.st.wait[p.next];
      s.(buffers := s.buffers[c := Signal(p.st.seq_ + 1, p.v)], sends := s.sends[c := Sends(s, c) + 1],
         waiting := p.st.wait[p.next + 1..], procs := s.procs[id := NotifyHolding(p.st, p.v, p.next + 1)])
    case Release(id) => ReleaseState(s, id)
    case Receive(id) =>
      var sig := s.buffers[id];
      s.(buffers := s.buffers - {id}, history := s.history[id := History(s, id) + [sig.seq_]],
         procs := s.procs[id := Returned(s.procs[id].asked, sig.seq_, sig.val)])
    case Cancel(id) =>
      var p := s.procs[id];
      s.(procs := s.procs[id := Cancelled(p.asked, p.seq_, p.val)])
  }

  /** A call of AwaitChange makes a channel. */
  function NewCall<T>(s: State<T>, id: nat, asked: int): State<T> {
    s.(procs := s.procs[id := AwaitWaiting(asked)], buffers := s.buffers - {id}, sends := s.sends[id := 0],
       history := s.history[id := History(s, id)])
  }

  function TakeState<T>(s: State<T>, id: nat): State<T>
    requires id in s.procs && Waiting(s.procs[id]) && s.state.Some?
  {
    var st := s.state.value;
    match s.procs[id]
    case NotifyWaiting(v) =>
      s.(state := None, published := s.published + [v], notifying := true,
        procs := s.procs[id := NotifyHolding(st, v, 0)])
    case AwaitWaiting(asked) => s.(state := None, procs := s.procs[id := AwaitHolding(st, asked)])
    case LastWaiting => s.(state := None, procs := s.procs[id := LastHolding(st)])
  }

  function ReleaseState<T>(s: State<T>, id: nat): State<T>
    requires id in s.procs && Holding(s.procs[id])
  {
    match s.procs[id]
    case NotifyHolding(st, v, _) =>
      s.(state := Some(Shared(st.seq_ + 1, v, [])), waiting := [], notifying := false, procs := s.procs[id := Notified])
    case AwaitHolding(st, asked) =>
      if st.seq_ == asked then
        s.(state := Some(st.(wait := st.wait + [id])), waiting := st.wait + [id],
           procs := s.procs[id := Selecting(asked, st.seq_, st.val)])
      else
        s.(state := Some(st), buffers := s.buffers[id := Signal(st.seq_, st.val)],
          sends := s.sends[id := Sends(s, id) + 1],
           procs := s.procs[id := Selecting(asked, st.seq_, st.val)])
    case LastHolding(st) => s.(state := Some(st), procs := s.procs[id := LastReturned(st.seq_, st.val)])
  }

  // ---------------------------------------------------------------- the invariant

  ghost predicate OnlyHolder<T>(s: State<T>, id: nat) {
    id in s.procs && Holding(s.procs[id]) && forall o :: o in s.procs && o != id ==> !Holding(s.procs[o])
  }

  /** The state is in the channel, or exactly one caller holds it. */
  ghost predicate OneHolder<T>(s: State<T>) {
    && (s.state.Some? ==> forall id :: id in s.procs ==> !Holding(s.procs[id]))
    && (s.state.None? ==> exists id :: OnlyHolder(s, id))
    && (s.notifying <==> exists id :: id in s.procs && s.procs[id].NotifyHolding?)
  }

  /** The number under which listeners are waiting. */
  function Current<T>(s: State<T>): int {
    |s.published| - (if s.notifying then 2 else 1)
  }

  /** The pair was published. */
  predicate Published<T(==)>(s: State<T>, q: nat, v: T) {
    q < |s.published| && s.published[q] == v
  }

  predicate SharedOk<T(==)>(s: State<T>, st: Shared<T>) {
    st.seq_ == Current(s) && Published(s, st.seq_, st.val)
  }

  /** A channel that is waiting has never been sent to, and its listener asked for the number
      that is current. */
  ghost predicate WaiterOk<T>(s: State<T>, c: nat) {
    && c in s.procs && (s.procs[c].Selecting? || s.procs[c].Cancelled?)
    && s.procs[c].asked == s.procs[c].seq_ == Current(s)
    && c !in s.buffers && Sends(s, c) == 0
  }

  /** A channel made for a call and not yet used. */
  predicate Unused<T>(s: State<T>, id: nat) {
    id !in s.buffers && Sends(s, id) == 0 && id !in s.waiting
  }

  ghost predicate Increasing(h: seq<nat>) {
    forall i, j :: 0 <= i < j < |h| ==> h[i] < h[j]
  }

  /** A call asks for the number the call before it returned. */
  ghost predicate Continues<T>(s: State<T>, id: nat, asked: int) {
    var h := History(s, id);
    Increasing(h) && (h != [] ==> asked == h[|h| - 1] && h[|h| - 1] < |s.published|)
  }

  /** A listener in the select waits, or its one signal is buffered and is newer. */
  ghost predicate SelectingOk<T>(s: State<T>, id: nat)
    requires id in s.procs && s.procs[id].Selecting?
  {
    var p := s.procs[id];
    && Published(s, p.seq_, p.val)
    && Continues(s, id, p.asked)
    && (History(s, id) != [] ==> p.asked <= p.seq_)
    && (if id in s.buffers then
          && Sends(s, id) == 1 && id !in s.waiting
          && Published(s, s.buffers[id].seq_, s.buffers[id].val)
          && s.buffers[id].seq_ == (if p.seq_ == p.asked then p.seq_ + 1 else p.seq_)
        else id in s.waiting)
  }

  ghost predicate ProcOk<T>(s: State<T>, id: nat)
    requires id in s.procs
  {
    match s.procs[id]
    case NotifyHolding(st, v, next) =>
      SharedOk(s, st) && s.notifying && s.published[|s.published| - 1] == v && next <= |st.wait| &&
        st.wait[next..] == s.waiting
    case AwaitWaiting(asked) => Unused(s, id) && Continues(s, id, asked)
    case AwaitHolding(st, asked) =>
      SharedOk(s, st) && !s.notifying && st.wait == s.waiting && Unused(s, id) && Continues(s, id, asked)
    case LastHolding(st) => SharedOk(s, st) && !s.notifying && st.wait == s.waiting
    case Selecting(_, _, _) => SelectingOk(s, id)
    case Returned(asked, q, v) =>
      && Published(s, q, v) && q != asked && Used(s, id)
      && Increasing(History(s, id)) && History(s, id) != [] && History(s, id)[|History(s, id)| - 1] == q
    case Cancelled(_, q, v) => Published(s, q, v) && Sends(s, id) <= 1
    case LastReturned(q, v) => Published(s, q, v)
    case _ => true
  }

  predicate Used<T>(s: State<T>, id: nat) {
    id !in s.buffers && Sends(s, id) == 1 && id !in s.waiting
  }

  ghost predicate Inv<T(!new)>(s: State<T>) {
    && OneHolder(s)
    && (s.state.Some? ==> SharedOk(s, s.state.value) && s.state.value.wait == s.waiting)
    && (s.published != [] && (s.notifying ==> |s.published| > 1))
    && DistinctChannels(s.waiting)
    && (forall c :: c in s.waiting ==> WaiterOk(s, c))
    && (forall id :: id in s.procs ==> ProcOk(s, id))
    && s.history.Keys <= s.procs.Keys
  }

  lemma InitInv<T(!new)>(v: T)
    ensures Inv(Init(v))
  {
  }

  /** What concerns the listener o is the same in both states. */
  ghost predicate SameFor<T>(s: State<T>, s': State<T>, o: nat) {
    && o in s.procs && o in s'.procs && s'.procs[o] == s.procs[o]
    && (o in s.buffers <==> o in s'.buffers) && (o in s.buffers ==> s'.buffers[o] == s.buffers[o])
    && Sends(s', o) == Sends(s, o) && History(s', o) == History(s, o)
    && (o in s.waiting <==> o in s'.waiting)
  }

  /** Callers that do not hold the state are not affected by what happens to others. */
  lemma FrameProc<T(!new)>(s: State<T>, s': State<T>, o: nat)
    requires SameFor(s, s', o) && ProcOk(s, o) && !Holding(s.procs[o]) && s.published <= s'.published
    ensures ProcOk(s', o)
  {
  }

  /** Nor is the one who holds it, while the record stays as it is. */
  lemma FrameHolder<T(!new)>(s: State<T>, s': State<T>, o: nat)
    requires SameFor(s, s', o) && ProcOk(s, o)
    requires s'.published == s.published && s'.notifying == s.notifying && s'.waiting == s.waiting
    ensures ProcOk(s', o)
  {
  }

  /** A step that neither takes, changes nor returns the state. */
  ghost predicate Aside<T>(s: State<T>, s': State<T>, id: nat) {
    && s'.state == s.state && s'.published == s.published && s'.notifying == s.notifying && s'.waiting == s.waiting
    && s'.procs.Keys == s.procs.Keys + {id}
    && (forall o :: o in s.procs && o != id ==> SameFor(s, s', o))
    && !Holding(s'.procs[id]) && (id in s.procs ==> !Holding(s.procs[id]))
    && s'.history.Keys <= s.history.Keys + {id}
  }

  lemma AsideInv<T(!new)>(s: State<T>, s': State<T>, id: nat)
    requires Inv(s) && Aside(s, s', id) && ProcOk(s', id)
    requires id in s.waiting ==> WaiterOk(s', id)
    ensures Inv(s')
  {
    AsideHolder(s, s', id);
    forall c | c in s'.waiting ensures WaiterOk(s', c) {
      assert WaiterOk(s, c);
      if c != id {
        assert SameFor(s, s', c);
      }
    }
    forall o | o in s'.procs ensures ProcOk(s', o) {
      if o != id {
        assert ProcOk(s, o);
        FrameHolder(s, s', o);
      }
    }
  }

  lemma AsideHolder<T(!new)>(s: State<T>, s': State<T>, id: nat)
    requires OneHolder(s) && Aside(s, s', id)
    ensures OneHolder(s')
  {
    assert forall o :: o in s.procs && o != id ==> s'.procs[o] == s.procs[o] by {
      forall o | o in s.procs && o != id ensures s'.procs[o] == s.procs[o] {
        assert SameFor(s, s', o);
      }
    }
    if s.state.None? {
      var h :| OnlyHolder(s, h);
      assert OnlyHolder(s', h);
    }
    if s.notifying {
      var h :| h in s.procs && s.procs[h].NotifyHolding?;
      assert s'.procs[h].NotifyHolding?;
    }
  }

  lemma CallInv<T(!new)>(s: State<T>, step: Step<T>)
    requires Inv(s) && Enabled(s, step) && (step.CallNotify? || step.CallLast?)
    ensures Inv(Apply(s, step))
  {
    hide Apply, Aside, ProcOk, OneHolder;
    var s', id := Apply(s, step), step.id;
    assert id in s.waiting ==> WaiterOk(s, id);
    CallerAside(s, step);
    CalledOk(s, step);
    AsideInv(s, s', id);
  }

  lemma CalledOk<T(!new)>(s: State<T>, step: Step<T>)
    requires Enabled(s, step) && (step.CallNotify? || step.CallLast?)
    ensures step.id in Apply(s, step).procs && ProcOk(Apply(s, step), step.id)
  {
  }

  lemma ListenInv<T(!new)>(s: State<T>, step: Step<T>)
    requires Inv(s) && Enabled(s, step) && (step.CallAwait? || step.CallAgain?)
    ensures Inv(Apply(s, step))
  {
    var s', id := Apply(s, step), step.id;
    assert id in s.waiting ==> WaiterOk(s, id);
    assert id in s.procs ==> ProcOk(s, id);
    NewCallOk(s, id, if step.CallAwait? then step.asked else s.procs[id].seq_);
    AsideInv(s, s', id);
  }

  lemma NewCallOk<T(!new)>(s: State<T>, id: nat, asked: int)
    requires id !in s.waiting && (id in s.procs ==> !Holding(s.procs[id]))
    requires Continues(s, id, asked)
    ensures var s' := NewCall(s, id, asked); Aside(s, s', id) && ProcOk(s', id)
  {
    var s' := NewCall(s, id, asked);
    forall o | o in s.procs && o != id ensures SameFor(s, s', o) {
    }
  }

  lemma ReceiveInv<T(!new)>(s: State<T>, id: nat)
    requires Inv(s) && Enabled(s, Receive(id))
    ensures Inv(Apply(s, Receive(id)))
  {
    hide Apply, Aside, ProcOk, OneHolder;
    assert ProcOk(s, id);
    SelectingIsOk(s, id);
    CallerAside(s, Receive(id));
    ReceivedOk(s, id);
    AsideInv(s, Apply(s, Receive(id)), id);
  }

  lemma SelectingIsOk<T(!new)>(s: State<T>, id: nat)
    requires id in s.procs && s.procs[id].Selecting? && ProcOk(s, id)
    ensures SelectingOk(s, id)
  {
  }

  lemma ReceivedOk<T(!new)>(s: State<T>, id: nat)
    requires Enabled(s, Receive(id)) && SelectingOk(s, id)
    ensures ProcOk(Apply(s, Receive(id)), id)
  {
    var h, q := History(s, id), s.buffers[id].seq_;
    assert h != [] ==> h[|h| - 1] < q;
    assert Increasing(h + [q]);
  }

  lemma CancelInv<T(!new)>(s: State<T>, id: nat)
    requires Inv(s) && Enabled(s, Cancel(id))
    ensures Inv(Apply(s, Cancel(id)))
  {
    hide Apply, Aside, ProcOk, WaiterOk, OneHolder;
    assert ProcOk(s, id);
    assert id in s.waiting ==> WaiterOk(s, id);
    CallerAside(s, Cancel(id));
    CancelledOk(s, id);
    AsideInv(s, Apply(s, Cancel(id)), id);
  }

  lemma CancelledOk<T(!new)>(s: State<T>, id: nat)
    requires Enabled(s, Cancel(id)) && ProcOk(s, id) && (id in s.waiting ==> WaiterOk(s, id))
    ensures var s' := Apply(s, Cancel(id)); ProcOk(s', id) && (id in s.waiting ==> WaiterOk(s', id))
  {
    assert SelectingOk(s, id);
  }

  /** Steps that concern nobody but the caller. */
  lemma CallerAside<T(!new)>(s: State<T>, step: Step<T>)
    requires Enabled(s, step) && (step.CallNotify? || step.CallLast? || step.Receive? || step.Cancel?)
    ensures Aside(s, Apply(s, step), step.id)
  {
    match step
    case Receive(id) => ReceiveAside(s, id);
    case Cancel(id) => CancelAside(s, id);
    case _ =>
  }

  lemma ReceiveAside<T(!new)>(s: State<T>, id: nat)
    requires Enabled(s, Receive(id))
    ensures Aside(s, Apply(s, Receive(id)), id)
  {
  }

  lemma CancelAside<T(!new)>(s: State<T>, id: nat)
    requires Enabled(s, Cancel(id))
    ensures Aside(s, Apply(s, Cancel(id)), id)
  {
  }

  lemma TakeInv<T(!new)>(s: State<T>, id: nat)
    requires Inv(s) && Enabled(s, Take(id))
    ensures Inv(Apply(s, Take(id)))
  {
    hide Apply, TakeState, ProcOk, SameFor, WaiterOk;
    var s' := Apply(s, Take(id));
    assert ProcOk(s, id);
    TakerOk(s, id);
    TakeRecord(s, id);
    forall c | c in s'.waiting ensures WaiterOk(s', c) {
      assert WaiterOk(s, c);
      TakeWaiter(s, id, c);
    }
    forall o | o in s'.procs ensures ProcOk(s', o) {
      if o != id {
        TakeSame(s, id, o);
        assert ProcOk(s, o);
        FrameProc(s, s', o);
      }
    }
  }

  /** What taking the state changes besides the taker. */
  lemma TakeRecord<T(!new)>(s: State<T>, id: nat)
    requires OneHolder(s) && Enabled(s, Take(id)) && s.published != []
    ensures var s' := Apply(s, Take(id));
      && OneHolder(s') && s'.state.None? && s'.waiting == s.waiting
      && s'.published != [] && (s'.notifying ==> |s'.published| > 1)
      && s'.history == s.history && s'.procs.Keys == s.procs.Keys
  {
    var s' := Apply(s, Take(id));
    assert Holding(s'.procs[id]) && (s'.notifying <==> s'.procs[id].NotifyHolding?);
    assert forall o :: o in s.procs && o != id ==> s'.procs[o] == s.procs[o];
    assert OnlyHolder(s', id);
  }

  lemma TakeWaiter<T(!new)>(s: State<T>, id: nat, c: nat)
    requires OneHolder(s) && Enabled(s, Take(id)) && WaiterOk(s, c)
    ensures WaiterOk(Apply(s, Take(id)), c)
  {
  }

  lemma TakeSame<T(!new)>(s: State<T>, id: nat, o: nat)
    requires OneHolder(s) && Enabled(s, Take(id)) && o != id && o in s.procs
    ensures SameFor(s, Apply(s, Take(id)), o) && !Holding(s.procs[o]) && s.published <= Apply(s, Take(id)).published
  {
  }

  lemma TakerOk<T(!new)>(s: State<T>, id: nat)
    requires Enabled(s, Take(id)) && ProcOk(s, id) && s.published != [] && !s.notifying
    requires SharedOk(s, s.state.value) && s.state.value.wait == s.waiting
    ensures ProcOk(Apply(s, Take(id)), id)
  {
    var s' := Apply(s, Take(id));
    var st := s.state.value;
    assert st.wait[0..] == st.wait;
    match s.procs[id]
    case NotifyWaiting(v) => assert SharedOk(s', st);
    case AwaitWaiting(asked) => assert SharedOk(s', st);
    case LastWaiting => assert SharedOk(s', st);
  }

  lemma SignalInv<T(!new)>(s: State<T>, id: nat)
    requires Inv(s) && Enabled(s, SignalNext(id))
    ensures Inv(Apply(s, SignalNext(id)))
  {
    var s' := Apply(s, SignalNext(id));
    assert ProcOk(s, id);
    var c := s.procs[id].st.wait[s.procs[id].next];
    SignalHolder(s, id);
    SignalWaiters(s, id, c);
    assert s.waiting[0] == c && c in s.waiting;
    assert WaiterOk(s, c);
    assert ProcOk(s, c);
    SignalledOk(s, id, c);
    forall o | o in s'.procs ensures ProcOk(s', o) {
      if o != id && o != c {
        assert ProcOk(s, o);
        FrameProc(s, s', o);
      }
    }
  }

  ghost predicate DistinctChannels(w: seq<nat>) {
    forall i, j :: 0 <= i < j < |w| ==> w[i] != w[j]
  }

  lemma DropFirst(w: seq<nat>, w': seq<nat>, c: nat)
    requires DistinctChannels(w) && w == [c] + w'
    ensures DistinctChannels(w') && c !in w' && (forall d :: d in w' ==> d in w)
  {
    assert w[0] == c && forall i :: 0 <= i < |w'| ==> w'[i] == w[i + 1];
  }

  /** The waiter signalled is the first; the others stay as they are. */
  lemma SignalWaiters<T(!new)>(s: State<T>, id: nat, c: nat)
    requires Enabled(s, SignalNext(id)) && ProcOk(s, id) && c == s.procs[id].st.wait[s.procs[id].next]
    requires DistinctChannels(s.waiting)
    requires forall d :: d in s.waiting ==> WaiterOk(s, d)
    ensures var s' := Apply(s, SignalNext(id));
      && s.waiting == [c] + s'.waiting && c !in s'.waiting
      && DistinctChannels(s'.waiting)
      && (forall d :: d in s'.waiting ==> WaiterOk(s', d))
  {
    var s' := Apply(s, SignalNext(id));
    var p := s.procs[id];
    assert p.st.wait[p.next..] == [c] + p.st.wait[p.next + 1..];
    DropFirst(s.waiting, s'.waiting, c);
    forall d | d in s'.waiting ensures WaiterOk(s', d) {
      assert WaiterOk(s, d) && d != c;
    }
  }

  lemma SignalHolder<T(!new)>(s: State<T>, id: nat)
    requires OneHolder(s) && Enabled(s, SignalNext(id))
    ensures OneHolder(Apply(s, SignalNext(id))) && NoOtherHolder(s, id)
    ensures s.notifying && s.state.None?
  {
    var s' := Apply(s, SignalNext(id));
    assert Holding(s.procs[id]);
    var h :| OnlyHolder(s, h);
    assert h == id;
    assert OnlyHolder(s', id);
    assert s'.procs[id].NotifyHolding?;
  }

  ghost predicate NoOtherHolder<T>(s: State<T>, id: nat) {
    forall o :: o in s.procs && o != id ==> !Holding(s.procs[o])
  }

  /** The signalled listener, and the notifier itself. */
  lemma SignalledOk<T(!new)>(s: State<T>, id: nat, c: nat)
    requires Enabled(s, SignalNext(id)) && ProcOk(s, id) && c == s.procs[id].st.wait[s.procs[id].next]
    requires s.notifying && |s.published| > 1 && s.waiting != [] && s.waiting[0] == c
    requires DistinctChannels(s.waiting)
    requires WaiterOk(s, c) && ProcOk(s, c)
    ensures var s' := Apply(s, SignalNext(id)); ProcOk(s', id) && ProcOk(s', c)
  {
    var s' := Apply(s, SignalNext(id));
    var p := s.procs[id];
    assert p.st.wait[p.next..] == [c] + p.st.wait[p.next + 1..];
    assert s.waiting[1..] == s'.waiting;
    assert c !in s'.waiting;
    assert SharedOk(s', p.st);
    assert Sends(s', c) == 1 && s'.buffers[c] == Signal(p.st.seq_ + 1, p.v);
    if s.procs[c].Selecting? {
      assert SelectingOk(s', c);
    }
  }

  lemma ReleaseHolder<T(!new)>(s: State<T>, id: nat)
    requires OneHolder(s) && Enabled(s, Release(id))
    ensures OneHolder(Apply(s, Release(id))) && NoOtherHolder(s, id)
    ensures s.notifying <==> s.procs[id].NotifyHolding?
  {
    var s' := Apply(s, Release(id));
    var h :| OnlyHolder(s, h);
    assert h == id && !Holding(s'.procs[id]);
    assert forall o :: o in s.procs && o != id ==> s'.procs[o] == s.procs[o];
    if s.notifying {
      var n :| n in s.procs && s.procs[n].NotifyHolding?;
      assert n == id;
    }
  }

  lemma ReleaseProcs<T(!new)>(s: State<T>, id: nat)
    requires Inv(s) && Enabled(s, Release(id)) && NoOtherHolder(s, id)
    requires ProcOk(Apply(s, Release(id)), id)
    requires s.procs[id].NotifyHolding? ==> s.waiting == []
    requires s.procs[id].AwaitHolding? || s.procs[id].LastHolding? ==> s.procs[id].st.wait == s.waiting
    ensures forall o :: o in Apply(s, Release(id)).procs ==> ProcOk(Apply(s, Release(id)), o)
  {
    hide Apply, ReleaseState, ProcOk, OneHolder, SharedOk, WaiterOk;
    var s' := Apply(s, Release(id));
    forall o | o in s'.procs ensures ProcOk(s', o) {
      if o != id {
        ReleaseSame(s, id, o);
        assert ProcOk(s, o);
        FrameProc(s, s', o);
      }
    }
  }

  /** For the others a release changes nothing. */
  lemma ReleaseSame<T(!new)>(s: State<T>, id: nat, o: nat)
    requires Enabled(s, Release(id)) && o != id && o in Apply(s, Release(id)).procs
    requires s.procs[id].NotifyHolding? ==> s.waiting == []
    requires s.procs[id].AwaitHolding? || s.procs[id].LastHolding? ==> s.procs[id].st.wait == s.waiting
    ensures SameFor(s, Apply(s, Release(id)), o) && s.published <= Apply(s, Release(id)).published
  {
    hide SameFor;
    match s.procs[id]
    case NotifyHolding(_, _, _) => ReleaseNotifySame(s, id, o);
    case AwaitHolding(st, _) => ReleaseAwaitSame(s, id, o, st.wait);
    case LastHolding(_) => ReleaseLastSame(s, id, o);
  }

  lemma ReleaseLastSame<T(!new)>(s: State<T>, id: nat, o: nat)
    requires Enabled(s, Release(id)) && o != id && o in Apply(s, Release(id)).procs
    requires s.procs[id].LastHolding?
    ensures SameFor(s, Apply(s, Release(id)), o)
  {
  }

  lemma ReleaseNotifySame<T(!new)>(s: State<T>, id: nat, o: nat)
    requires Enabled(s, Release(id)) && o != id && o in Apply(s, Release(id)).procs
    requires s.procs[id].NotifyHolding? && s.waiting == []
    ensures SameFor(s, Apply(s, Release(id)), o)
  {
  }

  lemma ReleaseAwaitSame<T(!new)>(s: State<T>, id: nat, o: nat, wait: seq<nat>)
    requires Enabled(s, Release(id)) && o != id && o in Apply(s, Release(id)).procs
    requires s.procs[id].AwaitHolding? && s.procs[id].st.wait == wait == s.waiting
    ensures SameFor(s, Apply(s, Release(id)), o)
  {
    assert o in wait + [id] <==> o in wait;
  }

  lemma ReleaseInv<T(!new)>(s: State<T>, id: nat)
    requires Inv(s) && Enabled(s, Release(id))
    ensures Inv(Apply(s, Release(id)))
  {
    assert ProcOk(s, id);
    ReleaseHolder(s, id);
    match s.procs[id]
    case NotifyHolding(st, v, _) =>
      assert st.wait[|st.wait|..] == [];
      ReleaseProcs(s, id);
    case AwaitHolding(st, asked) => ReleaseAwait(s, id);
    case LastHolding(st) =>
      ReleaseProcs(s, id);
      ReleaseWaiters(s, id);
  }

  lemma ReleaseWaiters<T(!new)>(s: State<T>, id: nat)
    requires Inv(s) && Enabled(s, Release(id)) && !s.procs[id].NotifyHolding? && !s.notifying
    ensures forall c :: c in s.waiting && c != id ==> WaiterOk(Apply(s, Release(id)), c)
  {
    forall c | c in s.waiting && c != id ensures WaiterOk(Apply(s, Release(id)), c) {
      assert WaiterOk(s, c);
    }
  }

  lemma ReleaseAwait<T(!new)>(s: State<T>, id: nat)
    requires Inv(s) && Enabled(s, Release(id)) && s.procs[id].AwaitHolding?
    requires OneHolder(Apply(s, Release(id))) && NoOtherHolder(s, id)
    ensures Inv(Apply(s, Release(id)))
  {
    var s', p := Apply(s, Release(id)), s.procs[id];
    assert ProcOk(s, id);
    AwaiterOk(s, id);
    ReleaseProcs(s, id);
    ReleaseWaiters(s, id);
  }

  /** A listener that asked for the current number joins the waiters; any other is sent the
      current one at once. */
  lemma AwaiterOk<T(!new)>(s: State<T>, id: nat)
    requires Enabled(s, Release(id)) && s.procs[id].AwaitHolding? && ProcOk(s, id)
    ensures ProcOk(Apply(s, Release(id)), id)
    ensures s.procs[id].st.seq_ == s.procs[id].asked ==> WaiterOk(Apply(s, Release(id)), id)
  {
    var s', p := Apply(s, Release(id)), s.procs[id];
    assert Published(s', p.st.seq_, p.st.val);
    assert SelectingOk(s', id);
  }

  lemma StepInv<T(!new)>(s: State<T>, step: Step<T>)
    requires Inv(s) && Enabled(s, step)
    ensures Inv(Apply(s, step))
  {
    match step
    case Take(id) => TakeInv(s, id);
    case SignalNext(id) => SignalInv(s, id);
    case Release(id) => ReleaseInv(s, id);
    case Receive(id) => ReceiveInv(s, id);
    case Cancel(id) => CancelInv(s, id);
    case CallNotify(_, _) => CallInv(s, step);
    case CallLast(_) => CallInv(s, step);
    case _ => ListenInv(s, step);
  }

  // ---------------------------------------------------------------- every run

  ghost predicate Run<T>(trace: seq<State<T>>, steps: seq<Step<T>>, v: T) {
    && |trace| == |steps| + 1
    && trace[0] == Init(v)
    && forall i :: 0 <= i < |steps| ==> Enabled(trace[i], steps[i]) && trace[i + 1] == Apply(trace[i], steps[i])
  }

  lemma {:induction false} RunInv<T(!new)>(trace: seq<State<T>>, steps: seq<Step<T>>, v: T, i: nat)
    requires Run(trace, steps, v) && i < |trace|
    ensures Inv(trace[i])
  {
    if i == 0 {
      InitInv(v);
    } else {
      RunInv(trace, steps, v, i - 1);
      StepInv(trace[i - 1], steps[i - 1]);
    }
  }

  /** No wake-up is lost. A listener in the select has its one signal, newer than what it asked
      for, in its buffer; or its channel is registered in the record, under the number it asked
      for, still to be signalled by the notification in progress or by the next. */
  lemma NoLostWakeup<T(!new)>(trace: seq<State<T>>, steps: seq<Step<T>>, v: T, i: nat, id: nat)
    requires Run(trace, steps, v) && i < |trace| && id in trace[i].procs && trace[i].procs[id].Selecting?
    ensures var s, p := trace[i], trace[i].procs[id];
      if id in s.buffers then
        && Published(s, s.buffers[id].seq_, s.buffers[id].val) && s.buffers[id].seq_ != p.asked
        && (p.asked <= p.seq_ ==> s.buffers[id].seq_ > p.asked)
        && Sends(s, id) == 1 && id !in s.waiting
      else
        id in s.waiting && p.asked == Current(s) && Sends(s, id) == 0
    ensures var s := trace[i];
      && (s.state.Some? ==> s.state.value.wait == s.waiting && !s.notifying)
      && (forall h :: h in s.procs && s.procs[h].NotifyHolding? ==>
            s.procs[h].next <= |s.procs[h].st.wait| && s.waiting == s.procs[h].st.wait[s.procs[h].next..])
  {
    RunInv(trace, steps, v, i);
    var s := trace[i];
    assert ProcOk(s, id) && SelectingOk(s, id);
    assert id in s.waiting ==> WaiterOk(s, id);
    forall h | h in s.procs && s.procs[h].NotifyHolding?
      ensures s.procs[h].next <= |s.procs[h].st.wait| && s.waiting == s.procs[h].st.wait[s.procs[h].next..]
    {
      assert ProcOk(s, h);
    }
  }

  /** NotifyChange never blocks on a waiter, and AwaitChange never on its own channel: every
      channel is sent to at most once. */
  lemma SendsNeverBlock<T(!new)>(trace: seq<State<T>>, steps: seq<Step<T>>, v: T, i: nat, id: nat)
    requires Run(trace, steps, v) && i < |trace| && id in trace[i].procs && Holding(trace[i].procs[id])
    ensures var s := trace[i];
      if s.procs[id].NotifyHolding? && s.procs[id].next < |s.procs[id].st.wait|
      then Enabled(s, SignalNext(id)) && Sends(s, s.procs[id].st.wait[s.procs[id].next]) == 0
      else Enabled(s, Release(id))
  {
    RunInv(trace, steps, v, i);
    var s, p := trace[i], trace[i].procs[id];
    assert ProcOk(s, id);
    if p.NotifyHolding? && p.next < |p.st.wait| {
      assert p.st.wait[p.next..][0] == p.st.wait[p.next];
      assert WaiterOk(s, p.st.wait[p.next]);
    }
  }

  /** Whatever AwaitChange and LastChange return, also when cancelled, is a value with the
      number under which it was published. */
  lemma ReturnedPairsArePublished<T(!new)>(trace: seq<State<T>>, steps: seq<Step<T>>, v: T, i: nat, id: nat)
    requires Run(trace, steps, v) && i < |trace| && id in trace[i].procs
    requires trace[i].procs[id].Returned? || trace[i].procs[id].Cancelled? || trace[i].procs[id].LastReturned?
    ensures Published(trace[i], trace[i].procs[id].seq_, trace[i].procs[id].val)
  {
    RunInv(trace, steps, v, i);
    assert ProcOk(trace[i], id);
  }

  /** A listener that always asks for the number it got last gets ever larger numbers. */
  lemma ListenerSeesIncreasing<T(!new)>(trace: seq<State<T>>, steps: seq<Step<T>>, v: T, i: nat, id: nat)
    requires Run(trace, steps, v) && i < |trace| && id in trace[i].procs
    requires trace[i].procs[id].Returned? || trace[i].procs[id].AwaitWaiting? || trace[i].procs[id].Selecting?
    ensures Increasing(History(trace[i], id))
  {
    RunInv(trace, steps, v, i);
    assert ProcOk(trace[i], id);
  }

  /** Numbers are published once and for all. */
  lemma {:induction false} PublishedForever<T(!new)>(trace: seq<State<T>>, steps: seq<Step<T>>, v: T, i: nat, j: nat)
    requires Run(trace, steps, v) && i <= j < |trace|
    ensures trace[i].published <= trace[j].published
    decreases j
  {
    hide Apply, Enabled;
    if i < j {
      PublishedForever(trace, steps, v, i, j - 1);
      NothingUnpublished(trace[j - 1], steps[j - 1]);
    }
  }

  lemma NothingUnpublished<T(!new)>(s: State<T>, step: Step<T>)
    requires Enabled(s, step)
    ensures s.published <= Apply(s, step).published
  {
  }
}
