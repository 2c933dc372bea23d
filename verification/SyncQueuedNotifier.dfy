// QueuedNotifier under every interleaving of its callers. The map of queues sits in a
// one-slot channel; receiving it and sending it back are separate steps, and so are the puts
// of one notification on the several queues and the gets of the listeners. A queue is an
// atomic FIFO here, as SyncQueue proves it to be.

module SyncQueuedNotifier {
  /** Tokens and the queues made for them are created together and never reused. */
  type Token = nat

  datatype Proc<T> =
    | RegisterWaiting(token: Token)
    | RegisterHolding(token: Token)
    | Registered(token: Token)
    | UnregisterWaiting(token: Token)
    | UnregisterHolding(token: Token)
    | Unregistered
    | NotifyWaiting(v: T)
    | NotifyHolding(v: T, todo: set<Token>)  // the queues still to be put on
    | Notified
    | AwaitWaiting(token: Token)
    | AwaitHolding(token: Token)
    | Getting(token: Token)                  // in Get of the token's queue
    | NotRegistered                          // returned the zero value and false
    | Received(token: Token, v: T)
    | Cancelled                              // returned the zero value and true

  /** free: the channel holds the map, whose keys are registered. log lists all notifications
      in the order in which they took the map; from and upto record, per token, the part of
      the log between its registration and its end, owner the call that created it. */
  datatype State<T> = State(
    free: bool,
    registered: set<Token>,
    created: set<Token>,
    owner: map<Token, nat>,
    queues: map<Token, seq<T>>,
    delivered: map<Token, seq<T>>,
    log: seq<T>,
    from: map<Token, nat>,
    upto: map<Token, nat>,
    procs: map<nat, Proc<T>>)

  datatype Step<T> =
    | CallRegister(id: nat, token: Token)
    | CallUnregister(id: nat, token: Token)
    | CallNotify(id: nat, v: T)
    | CallAwait(id: nat, token: Token)
    | Take(id: nat)
    | PutOne(id: nat, token: Token)
    | Release(id: nat)
    | Get(id: nat)
    | Cancel(id: nat)

  function Init<T>(): State<T> {
    State(true, {}, {}, map[], map[], map[], [], map[], map[], map[])
  }

  predicate Waiting<T>(p: Proc<T>) {
    p.RegisterWaiting? || p.UnregisterWaiting? || p.NotifyWaiting? || p.AwaitWaiting?
  }

  predicate Holding<T>(p: Proc<T>) {
    p.RegisterHolding? || p.UnregisterHolding? || p.NotifyHolding? || p.AwaitHolding?
  }

  predicate Enabled<T>(s: State<T>, step: Step<T>) {
    match step
    case CallRegister(id, token) => id !in s.procs && token !in s.created
    case CallUnregister(id, token) => id !in s.procs
    case CallNotify(id, _) => id !in s.procs
    case CallAwait(id, token) => id !in s.procs
    case Take(id) => id in s.procs && Waiting(s.procs[id]) && s.free
    case PutOne(id, token) =>
      id in s.procs && s.procs[id].NotifyHolding? && token in s.procs[id].todo && token in s.queues
    case Release(id) =>
      id in s.procs && Holding(s.procs[id]) && (s.procs[id].NotifyHolding? ==> s.procs[id].todo == {}) && !s.free
    case Get(id) =>
      && id in s.procs && s.procs[id].Getting? && s.procs[id].token in s.queues && s.queues[s.procs[id].token] != []
      && s.procs[id].token in s.delivered
    case Cancel(id) => id in s.procs && s.procs[id].Getting?
  }

  function Apply<T>(s: State<T>, step: Step<T>): State<T>
    requires Enabled(s, step)
  {
    match step
    case CallRegister(id, token) =>
      s.(procs := s.procs[id := RegisterWaiting(token)], created := s.created + {token}, owner := s.owner[token := id],
         queues := s.queues[token := []], delivered := s.delivered[token := []])
    case CallUnregister(id, token) => s.(procs := s.procs[id := UnregisterWaiting(token)])
    case CallNotify(id, v) => s.(procs := s.procs[id := NotifyWaiting(v)])
    case CallAwait(id, token) => s.(procs := s.procs[id := AwaitWaiting(token)])
    case Take(id) => TakeMap(s, id)
    case PutOne(id, token) =>
      var p := s.procs[id];
      s.(queues := s.queues[token := s.queues[token] + [p.v]],
         procs := s.procs[id := NotifyHolding(p.v, p.todo - {token})])
    case Release(id) => ReleaseMap(s, id)
    case Get(id) =>
      var t := s.procs[id].token;
      var q := s.queues[t];
      s.(queues := s.queues[t := q[1..]], delivered := s.delivered[t := s.delivered[t] + [q[0]]],
         procs := s.procs[id := Received(t, q[0])])
    case Cancel(id) => s.(procs := s.procs[id := Cancelled])
  }

  function TakeMap<T>(s: State<T>, id: nat): State<T>
    requires id in s.procs && Waiting(s.procs[id])
  {
    var p := s.procs[id];
    s.(free := false, log := if p.NotifyWaiting? then s.log + [p.v] else s.log,
       procs := s.procs[id := Holder(p, s.registered)])
  }

  /** The caller once it holds the map. */
  function Holder<T>(p: Proc<T>, registered: set<Token>): (r: Proc<T>)
    requires Waiting(p)
    ensures Holding(r)
  {
    match p
    case RegisterWaiting(t) => RegisterHolding(t)
    case UnregisterWaiting(t) => UnregisterHolding(t)
    case NotifyWaiting(v) => NotifyHolding(v, registered)
    case AwaitWaiting(t) => AwaitHolding(t)
  }

  function ReleaseMap<T>(s: State<T>, id: nat): State<T>
    requires id in s.procs && Holding(s.procs[id])
  {
    var p := s.procs[id];
    s.(free := true,
       registered := if p.RegisterHolding? then s.registered + {p.token}
                     else if p.UnregisterHolding? then s.registered - {p.token} else s.registered,
       from := if p.RegisterHolding? then s.from[p.token := |s.log|] else s.from,
       upto := if p.UnregisterHolding? && p.token in s.registered then s.upto[p.token := |s.log|] else s.upto,
       procs := s.procs[id := Released(p, s.registered)])
  }

  /** The caller once it has returned the map. */
  function Released<T>(p: Proc<T>, registered: set<Token>): (r: Proc<T>)
    requires Holding(p)
    ensures !Holding(r) && !Waiting(r)
  {
    match p
    case RegisterHolding(t) => Registered(t)
    case UnregisterHolding(t) => Unregistered
    case NotifyHolding(_, _) => Notified
    case AwaitHolding(t) => if t in registered then Getting(t) else NotRegistered
  }

  // ---------------------------------------------------------------- the invariant

  /** The map is in the channel, or exactly one caller holds it. */
  ghost predicate OneHolder<T>(s: State<T>) {
    && (s.free ==> forall id :: id in s.procs ==> !Holding(s.procs[id]))
    && (!s.free ==> exists id :: OnlyHolder(s, id))
  }

  ghost predicate OnlyHolder<T>(s: State<T>, id: nat) {
    id in s.procs && Holding(s.procs[id]) && forall o :: o in s.procs && o != id ==> !Holding(s.procs[o])
  }

  /** The notification in progress has not yet reached the queue of t. */
  ghost predicate Pending<T>(s: State<T>, t: Token) {
    exists id :: id in s.procs && s.procs[id].NotifyHolding? && t in s.procs[id].todo
  }

  /** The part of the log that the listener t has been sent. */
  ghost function Sent<T(!new)>(s: State<T>, t: Token): seq<T> {
    if t !in s.from then []
    else
      var end := if t in s.upto then s.upto[t] else if Pending(s, t) then |s.log| - 1 else |s.log|;
      if s.from[t] <= end <= |s.log| then s.log[s.from[t]..end] else []
  }

  ghost predicate Bounds<T(!new)>(s: State<T>, t: Token) {
    t in s.from ==>
      && s.from[t] <= |s.log|
      && (t in s.upto ==> s.from[t] <= s.upto[t] <= |s.log|)
      && (Pending(s, t) ==> t !in s.upto && s.from[t] < |s.log|)
  }

  ghost predicate Inv<T(!new)>(s: State<T>) {
    OneHolder(s) && Maps(s) && Procs(s) && forall t :: t in s.delivered && t in s.queues ==> Delivered(s, t)
  }

  ghost predicate Maps<T>(s: State<T>) {
    && s.queues.Keys == s.created && s.delivered.Keys == s.created && s.owner.Keys == s.created
    && (forall t :: t in s.registered <==> t in s.from && t !in s.upto)
    && s.from.Keys <= s.created && s.upto.Keys <= s.from.Keys
  }

  ghost predicate Procs<T>(s: State<T>) {
    forall id :: id in s.procs ==> ProcInv(s, id)
  }

  ghost predicate Delivered<T(!new)>(s: State<T>, t: Token)
    requires t in s.delivered && t in s.queues
  {
    Bounds(s, t) && s.delivered[t] + s.queues[t] == Sent(s, t)
  }

  ghost predicate ProcInv<T>(s: State<T>, id: nat)
    requires id in s.procs
  {
    match s.procs[id]
    case RegisterWaiting(t) => t !in s.from && t in s.owner && s.owner[t] == id
    case RegisterHolding(t) => t !in s.from && t in s.owner && s.owner[t] == id
    case NotifyHolding(v, todo) => todo <= s.registered && s.log != [] && s.log[|s.log| - 1] == v
    case Getting(t) => t in s.from
    case _ => true
  }

  lemma InitInv<T(!new)>()
    ensures Inv(Init<T>())
  {
  }

  lemma HolderStep<T(!new)>(s: State<T>, step: Step<T>)
    requires OneHolder(s) && Enabled(s, step)
    ensures OneHolder(Apply(s, step))
    ensures step.Take? ==> OnlyHolder(Apply(s, step), step.id)
    ensures step.PutOne? || step.Release? ==> OnlyHolder(s, step.id)
  {
    match step
    case Take(id) => HolderTake(s, id);
    case Release(id) => HolderRelease(s, id);
    case PutOne(id, token) => HolderPut(s, id, token);
    case _ => HolderOther(s, step);
  }

  lemma HolderTake<T(!new)>(s: State<T>, id: nat)
    requires OneHolder(s) && Enabled(s, Take(id))
    ensures var s' := Apply(s, Take(id)); OneHolder(s') && OnlyHolder(s', id)
  {
    hide Apply, TakeMap;
    TakeFrame(s, id);
    assert OnlyHolder(Apply(s, Take(id)), id);
  }

  /** The map is taken by one caller; the others stay as they are. */
  lemma TakeFrame<T(!new)>(s: State<T>, id: nat)
    requires Enabled(s, Take(id))
    ensures var s' := Apply(s, Take(id));
      && !s'.free && s'.procs.Keys == s.procs.Keys && Holding(s'.procs[id])
      && forall o :: o in s.procs && o != id ==> s'.procs[o] == s.procs[o]
  {
  }

  lemma ReleaseFrame<T(!new)>(s: State<T>, id: nat)
    requires Enabled(s, Release(id))
    ensures var s' := Apply(s, Release(id));
      && s'.free && s'.procs.Keys == s.procs.Keys && !Holding(s'.procs[id])
      && forall o :: o in s.procs && o != id ==> s'.procs[o] == s.procs[o]
  {
  }

  lemma HolderRelease<T(!new)>(s: State<T>, id: nat)
    requires OneHolder(s) && Enabled(s, Release(id))
    ensures OneHolder(Apply(s, Release(id))) && OnlyHolder(s, id)
  {
    hide Apply, ReleaseMap;
    var h :| OnlyHolder(s, h);
    assert h == id;
    ReleaseFrame(s, id);
  }

  lemma HolderPut<T(!new)>(s: State<T>, id: nat, token: Token)
    requires OneHolder(s) && Enabled(s, PutOne(id, token))
    ensures OneHolder(Apply(s, PutOne(id, token))) && OnlyHolder(s, id)
  {
    var s' := Apply(s, PutOne(id, token));
    assert Holding(s.procs[id]) && !s.free;
    var h :| OnlyHolder(s, h);
    assert h == id;
    assert forall o :: o in s'.procs && o != id ==> s'.procs[o] == s.procs[o];
    assert OnlyHolder(s', id);
  }

  lemma HolderOther<T(!new)>(s: State<T>, step: Step<T>)
    requires OneHolder(s) && Enabled(s, step) && !step.Take? && !step.Release? && !step.PutOne?
    ensures OneHolder(Apply(s, step))
  {
    var s' := Apply(s, step);
    assert s'.free == s.free && !Holding(s'.procs[step.id]);
    assert step.id in s.procs ==> !Holding(s.procs[step.id]);
    assert forall o :: o in s.procs && o != step.id ==> s'.procs[o] == s.procs[o];
    if !s.free {
      var h :| OnlyHolder(s, h);
      assert OnlyHolder(s', h);
    }
  }

  /** How a step changes what is pending. */
  lemma PendingStep<T(!new)>(s: State<T>, step: Step<T>, t: Token)
    requires OneHolder(s) && Enabled(s, step)
    ensures Pending(Apply(s, step), t) <==>
      match step
      case Take(id) => s.procs[id].NotifyWaiting? && t in s.registered
      case PutOne(id, token) => Pending(s, t) && t != token
      case Release(_) => false
      case _ => Pending(s, t)
    ensures step.Take? || step.Release? ==> !Pending(s, t)
    ensures step.PutOne? ==> Pending(s, step.token)
  {
    hide Pending;
    match step
    case Take(id) => PendingTake(s, id, t);
    case PutOne(id, token) => PendingPut(s, id, token, t);
    case Release(id) => PendingRelease(s, id, t);
    case _ => PendingSame(s, step, t);
  }

  lemma PendingTake<T(!new)>(s: State<T>, id: nat, t: Token)
    requires OneHolder(s) && Enabled(s, Take(id))
    ensures !Pending(s, t)
    ensures Pending(Apply(s, Take(id)), t) <==> s.procs[id].NotifyWaiting? && t in s.registered
  {
    var s' := Apply(s, Take(id));
    TakeFrame(s, id);
    if s.procs[id].NotifyWaiting? && t in s.registered {
      assert t in s'.procs[id].todo;
    }
  }

  lemma PendingPut<T(!new)>(s: State<T>, id: nat, token: Token, t: Token)
    requires OneHolder(s) && Enabled(s, PutOne(id, token))
    ensures Pending(s, token)
    ensures Pending(Apply(s, PutOne(id, token)), t) <==> Pending(s, t) && t != token
  {
    var s' := Apply(s, PutOne(id, token));
    HolderPut(s, id, token);
    assert token in s.procs[id].todo;
    assert Pending(s, t) <==> t in s.procs[id].todo;
    assert Pending(s', t) <==> t in s'.procs[id].todo;
  }

  lemma PendingRelease<T(!new)>(s: State<T>, id: nat, t: Token)
    requires OneHolder(s) && Enabled(s, Release(id))
    ensures !Pending(s, t) && !Pending(Apply(s, Release(id)), t)
  {
    HolderRelease(s, id);
  }

  lemma PendingSame<T(!new)>(s: State<T>, step: Step<T>, t: Token)
    requires OneHolder(s) && Enabled(s, step) && !step.Take? && !step.Release? && !step.PutOne?
    ensures Pending(Apply(s, step), t) <==> Pending(s, t)
  {
    var s' := Apply(s, step);
    if Pending(s, t) {
      var o :| o in s.procs && s.procs[o].NotifyHolding? && t in s.procs[o].todo;
      assert s'.procs[o] == s.procs[o];
    }
  }

  lemma MapsStep<T(!new)>(s: State<T>, step: Step<T>)
    requires Maps(s) && Enabled(s, step) && (step.Release? ==> ProcInv(s, step.id))
    ensures Maps(Apply(s, step))
  {
    var s' := Apply(s, step);
    match step
    case Release(id) => MapsRelease(s, id);
    case CallRegister(id, token) => MapsRegister(s, id, token);
    case PutOne(id, token) => assert s'.queues.Keys == s.queues.Keys;
    case Get(id) =>
      assert s'.queues.Keys == s.queues.Keys && s'.delivered.Keys == s.delivered.Keys;
    case _ =>
  }

  lemma MapsRegister<T(!new)>(s: State<T>, id: nat, token: Token)
    requires Maps(s) && Enabled(s, CallRegister(id, token))
    ensures Maps(Apply(s, CallRegister(id, token)))
  {
    var s' := Apply(s, CallRegister(id, token));
    assert s'.queues.Keys == s.queues.Keys + {token} && s'.delivered.Keys == s.delivered.Keys + {token};
    assert s'.owner.Keys == s.owner.Keys + {token};
  }

  lemma MapsRelease<T(!new)>(s: State<T>, id: nat)
    requires Maps(s) && Enabled(s, Release(id)) && ProcInv(s, id)
    ensures Maps(Apply(s, Release(id)))
  {
    var s' := Apply(s, Release(id));
    match s.procs[id]
    case RegisterHolding(t) => assert s'.from.Keys == s.from.Keys + {t};
    case UnregisterHolding(t) => assert t in s.registered ==> s'.upto.Keys == s.upto.Keys + {t};
    case _ =>
  }

  lemma ProcsStep<T(!new)>(s: State<T>, step: Step<T>)
    requires Inv(s) && Enabled(s, step)
    ensures Procs(Apply(s, step))
  {
    hide ProcInv, Apply, Maps, Delivered, Enabled;
    var s' := Apply(s, step);
    HolderStep(s, step);
    assert step.id in s.procs ==> ProcInv(s, step.id);
    OwnProcStep(s, step);
    OnlyOwnChanges(s, step);
    forall id | id in s'.procs && id != step.id ensures ProcInv(s', id) {
      assert ProcInv(s, id);
      OtherProcStep(s, step, id);
    }
  }

  lemma OnlyOwnChanges<T(!new)>(s: State<T>, step: Step<T>)
    requires Enabled(s, step)
    ensures Apply(s, step).procs.Keys == s.procs.Keys + {step.id}
  {
    match step
    case Take(id) => TakeFrame(s, id);
    case Release(id) => ReleaseFrame(s, id);
    case _ =>
  }

  /** The caller that takes the step. */
  lemma OwnProcStep<T(!new)>(s: State<T>, step: Step<T>)
    requires Maps(s) && Enabled(s, step)
    requires step.id in s.procs ==> ProcInv(s, step.id)
    ensures step.id in Apply(s, step).procs && ProcInv(Apply(s, step), step.id)
  {
    hide TakeMap, ReleaseMap;
    match step
    case Take(id) => TakerProc(s, id);
    case PutOne(id, token) => PutterProc(s, id, token);
    case Release(id) => ReleaserProc(s, id);
    case CallRegister(id, token) => assert s.from.Keys <= s.created;
    case _ =>
  }

  lemma TakerProc<T(!new)>(s: State<T>, id: nat)
    requires Enabled(s, Take(id)) && ProcInv(s, id)
    ensures id in Apply(s, Take(id)).procs && ProcInv(Apply(s, Take(id)), id)
  {
    var s' := Apply(s, Take(id));
    if s.procs[id].NotifyWaiting? {
      assert s'.log[|s'.log| - 1] == s.procs[id].v;
    }
  }

  lemma PutterProc<T(!new)>(s: State<T>, id: nat, token: Token)
    requires Enabled(s, PutOne(id, token)) && ProcInv(s, id)
    ensures id in Apply(s, PutOne(id, token)).procs && ProcInv(Apply(s, PutOne(id, token)), id)
  {
  }

  lemma ReleaserProc<T(!new)>(s: State<T>, id: nat)
    requires Maps(s) && Enabled(s, Release(id)) && ProcInv(s, id)
    ensures id in Apply(s, Release(id)).procs && ProcInv(Apply(s, Release(id)), id)
  {
    match s.procs[id]
    case AwaitHolding(t) => assert t in s.registered ==> t in s.created;
    case _ =>
  }

  /** The others: one that holds the map sees no step of another holder. */
  lemma OtherProcStep<T(!new)>(s: State<T>, step: Step<T>, id: nat)
    requires Maps(s) && Enabled(s, step) && id in s.procs && id != step.id && ProcInv(s, id)
    requires step.Take? ==> OnlyHolder(Apply(s, step), step.id)
    requires step.PutOne? || step.Release? ==> OnlyHolder(s, step.id)
    requires step.Release? && s.procs[step.id].RegisterHolding? ==> ProcInv(s, step.id)
    ensures id in Apply(s, step).procs && ProcInv(Apply(s, step), id)
  {
    var s' := Apply(s, step);
    assert s'.procs[id] == s.procs[id];
  }

  /** What each step sends to, and takes from, the listener t. */
  lemma DeliveredStep<T(!new)>(s: State<T>, step: Step<T>, t: Token)
    requires Inv(s) && Enabled(s, step) && Maps(Apply(s, step)) && t in Apply(s, step).created
    ensures var s' := Apply(s, step); t in s'.delivered && t in s'.queues && Delivered(s', t)
  {
    PendingStep(s, step, t);
    if t in s.created {
      OldDelivered(s, step, t);
    } else {
      assert step.CallRegister?;
    }
  }

  lemma OldDelivered<T(!new)>(s: State<T>, step: Step<T>, t: Token)
    requires Maps(s) && Procs(s) && Enabled(s, step) && t in s.delivered && t in s.queues && Delivered(s, t)
    requires Pending(Apply(s, step), t) <==>
      match step
      case Take(id) => s.procs[id].NotifyWaiting? && t in s.registered
      case PutOne(id, token) => Pending(s, t) && t != token
      case Release(_) => false
      case _ => Pending(s, t)
    requires step.Take? || step.Release? ==> !Pending(s, t)
    requires step.PutOne? ==> Pending(s, step.token)
    requires step.CallRegister? ==> step.token != t
    ensures var s' := Apply(s, step); t in s'.delivered && t in s'.queues && Delivered(s', t)
  {
    hide Sent, Bounds, Delivered, Pending, ProcInv, Maps;
    assert step.id in s.procs ==> ProcInv(s, step.id);
    match step
    case Take(id) => TakeDelivers(s, id, t);
    case PutOne(id, token) => PutDelivers(s, id, token, t);
    case Release(id) => ReleaseDelivers(s, id, t);
    case Get(id) => GetDelivers(s, id, t);
    case _ => SameDelivers(s, Apply(s, step), t);
  }

  lemma SameDelivers<T(!new)>(s: State<T>, s': State<T>, t: Token)
    requires t in s.delivered && t in s.queues && Delivered(s, t)
    requires t in s'.delivered && t in s'.queues && s'.delivered[t] + s'.queues[t] == s.delivered[t] + s.queues[t]
    requires s'.log == s.log && s'.from == s.from && s'.upto == s.upto && (Pending(s', t) <==> Pending(s, t))
    ensures Delivered(s', t)
  {
  }

  lemma GetDelivers<T(!new)>(s: State<T>, id: nat, t: Token)
    requires Enabled(s, Get(id)) && t in s.delivered && t in s.queues && Delivered(s, t)
    requires Pending(Apply(s, Get(id)), t) <==> Pending(s, t)
    ensures Delivered(Apply(s, Get(id)), t)
  {
    if t == s.procs[id].token {
      assert s.queues[t] == [s.queues[t][0]] + s.queues[t][1..];
    }
    SameDelivers(s, Apply(s, Get(id)), t);
  }

  lemma TakeDelivers<T(!new)>(s: State<T>, id: nat, t: Token)
    requires Maps(s) && Enabled(s, Take(id)) && t in s.delivered && t in s.queues && Delivered(s, t)
    requires !Pending(s, t)
    requires Pending(Apply(s, Take(id)), t) <==> s.procs[id].NotifyWaiting? && t in s.registered
    ensures Delivered(Apply(s, Take(id)), t)
  {
    var s' := Apply(s, Take(id));
    if t in s.from {
      var end := if t in s.upto then s.upto[t] else |s.log|;
      assert s'.log[s.from[t]..end] == s.log[s.from[t]..end];
    }
  }

  lemma PutDelivers<T(!new)>(s: State<T>, id: nat, token: Token, t: Token)
    requires Maps(s) && Enabled(s, PutOne(id, token)) && t in s.delivered && t in s.queues && Delivered(s, t) &&
      ProcInv(s, id)
    requires t == token ==> Pending(s, t)
    requires Pending(Apply(s, PutOne(id, token)), t) <==> Pending(s, t) && t != token
    ensures Delivered(Apply(s, PutOne(id, token)), t)
  {
    var s' := Apply(s, PutOne(id, token));
    if t == token {
      var v, a, n := s.procs[id].v, s.from[t], |s.log|;
      assert s.log[a..n] == s.log[a..n - 1] + [v];
      assert s'.delivered[t] + s'.queues[t] == s.delivered[t] + s.queues[t] + [v];
    } else {
      SameDelivers(s, s', t);
    }
  }

  lemma ReleaseDelivers<T(!new)>(s: State<T>, id: nat, t: Token)
    requires Maps(s) && Enabled(s, Release(id)) && t in s.delivered && t in s.queues && Delivered(s, t) &&
      ProcInv(s, id)
    requires !Pending(s, t) && !Pending(Apply(s, Release(id)), t)
    ensures Delivered(Apply(s, Release(id)), t)
  {
    assert s.log[|s.log|..|s.log|] == [];
  }

  lemma StepInv<T(!new)>(s: State<T>, step: Step<T>)
    requires Inv(s) && Enabled(s, step)
    ensures Inv(Apply(s, step))
  {
    var s' := Apply(s, step);
    HolderStep(s, step);
    assert step.Release? ==> ProcInv(s, step.id);
    MapsStep(s, step);
    ProcsStep(s, step);
    forall t | t in s'.delivered && t in s'.queues ensures Delivered(s', t) {
      DeliveredStep(s, step, t);
    }
  }

  // ---------------------------------------------------------------- every run

  ghost predicate Run<T>(trace: seq<State<T>>, steps: seq<Step<T>>) {
    && |trace| == |steps| + 1
    && trace[0] == Init()
    && forall i :: 0 <= i < |steps| ==> Enabled(trace[i], steps[i]) && trace[i + 1] == Apply(trace[i], steps[i])
  }

  lemma {:induction false} RunInv<T(!new)>(trace: seq<State<T>>, steps: seq<Step<T>>, i: nat)
    requires Run(trace, steps) && i < |trace|
    ensures Inv(trace[i])
  {
    if i == 0 {
      InitInv<T>();
    } else {
      RunInv(trace, steps, i - 1);
      StepInv(trace[i - 1], steps[i - 1]);
    }
  }

  /** What a listener has received, followed by what waits in its queue, is the stretch of the
      common log between its registration and its end: every notification made meanwhile,
      exactly once, in the order common to all listeners. Only the notification in progress
      may be missing, until its turn comes. */
  lemma QueuedDelivery<T(!new)>(trace: seq<State<T>>, steps: seq<Step<T>>, i: nat, t: Token)
    requires Run(trace, steps) && i < |trace| && t in trace[i].registered
    ensures var s := trace[i];
      && t in s.delivered && t in s.queues && t in s.from && s.from[t] <= |s.log|
      && s.delivered[t] + s.queues[t] ==
           (if Pending(s, t) && s.from[t] < |s.log| then s.log[s.from[t]..|s.log| - 1] else s.log[s.from[t]..])
      && (s.free ==> s.delivered[t] + s.queues[t] == s.log[s.from[t]..])
  {
    hide OneHolder, Pending, Sent, Bounds, Procs;
    RunInv(trace, steps, i);
    var s := trace[i];
    assert t in s.from && t in s.created;
    DeliveredNow(s, t);
  }

  lemma DeliveredNow<T(!new)>(s: State<T>, t: Token)
    requires OneHolder(s) && t in s.from && t !in s.upto && t in s.delivered && t in s.queues && Delivered(s, t)
    ensures s.from[t] <= |s.log|
    ensures s.delivered[t] + s.queues[t] ==
      (if Pending(s, t) && s.from[t] < |s.log| then s.log[s.from[t]..|s.log| - 1] else s.log[s.from[t]..])
    ensures s.free ==> s.delivered[t] + s.queues[t] == s.log[s.from[t]..]
  {
    hide OneHolder, Pending;
    NotPendingWhenFree(s, t);
    assert s.log[s.from[t]..] == s.log[s.from[t]..|s.log|];
  }

  lemma NotPendingWhenFree<T(!new)>(s: State<T>, t: Token)
    requires OneHolder(s)
    ensures s.free ==> !Pending(s, t)
  {
  }

  /** After unregistering, a listener receives at most what was sent before. */
  lemma AfterUnregister<T(!new)>(trace: seq<State<T>>, steps: seq<Step<T>>, i: nat, t: Token)
    requires Run(trace, steps) && i < |trace| && t in trace[i].upto
    ensures var s := trace[i];
      && t in s.delivered && t in s.queues && t in s.from && s.from[t] <= s.upto[t] <= |s.log|
      && s.delivered[t] + s.queues[t] == s.log[s.from[t]..s.upto[t]]
  {
    RunInv(trace, steps, i);
    assert t in trace[i].from && Delivered(trace[i], t);
  }

  /** A step taken for one listener changes nothing for another, and a cancelled wait
      consumes nothing. */
  lemma Independence<T(!new)>(trace: seq<State<T>>, steps: seq<Step<T>>, i: nat, t: Token)
    requires Run(trace, steps) && i < |steps| && t in trace[i].created
    ensures var s, s' := trace[i], trace[i + 1];
      && t in s.queues && t in s'.queues && t in s.delivered && t in s'.delivered
      && (steps[i].Cancel? ==> s'.queues == s.queues && s'.delivered == s.delivered)
      && (steps[i].Get? && s.procs[steps[i].id].token != t ==>
            s'.queues[t] == s.queues[t] && s'.delivered[t] == s.delivered[t])
  {
    RunInv(trace, steps, i);
    RunInv(trace, steps, i + 1);
    StepsApart(trace[i], steps[i], t);
  }

  lemma StepsApart<T(!new)>(s: State<T>, step: Step<T>, t: Token)
    requires Maps(s) && Enabled(s, step) && Maps(Apply(s, step)) && t in s.created
    ensures var s' := Apply(s, step);
      && t in s.queues && t in s'.queues && t in s.delivered && t in s'.delivered
      && (step.Cancel? ==> s'.queues == s.queues && s'.delivered == s.delivered)
      && (step.Get? && s.procs[step.id].token != t ==>
            s'.queues[t] == s.queues[t] && s'.delivered[t] == s.delivered[t])
  {
    var s' := Apply(s, step);
    assert s.created <= s'.created;
  }

  /** A notification can always be put on every queue it is meant for, however slow the
      listener, and then always ends. */
  lemma NotifyNeverBlocks<T(!new)>(trace: seq<State<T>>, steps: seq<Step<T>>, i: nat, id: nat)
    requires Run(trace, steps) && i < |trace| && id in trace[i].procs && trace[i].procs[id].NotifyHolding?
    ensures var s := trace[i];
      && (forall t :: t in s.procs[id].todo ==> Enabled(s, PutOne(id, t)))
      && (s.procs[id].todo == {} ==> Enabled(s, Release(id)))
  {
    RunInv(trace, steps, i);
    assert ProcInv(trace[i], id);
  }
}
