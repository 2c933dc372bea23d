// OSPF interfaces kept in step with the machine's network interfaces. Every interface runs in
// a goroutine of its own that receives events over an unbuffered channel; the reconciliation
// reads the interface's state while the last event may not have been handled yet.

module OspfInterfaces {
  import opened Prelude

  datatype InterfaceState = Down | Loopback | Waiting | PointToPoint | DROther | Backup | DR

  datatype InterfaceEvent =
    InterfaceUp | WaitTimer | BackupSeen | NeighborChange | LoopInd | UnloopInd | InterfaceDown

  datatype InterfaceType =
    TypePointToPoint | TypeBroadcast | TypeNBMA | TypePointToMultipoint | TypePointToMultipointBroadcast |
      TypeVirtualLink

  /** An interface address and its mask. */
  datatype Prefix = Prefix(addr: nat, bits: nat, is4: bool)

  datatype InterfaceID = InterfaceID(name: string, prefix: Prefix)

  /** The state after an event, for interfaces of every type and priority. */
  function NextState(s: InterfaceState, e: InterfaceEvent): InterfaceState {
    match e
    case InterfaceUp => PointToPoint
    case LoopInd => Loopback
    case UnloopInd => PointToPoint
    case InterfaceDown => Down
    case _ => s
  }

  /** The states an interface ever rests in. */
  predicate Resting(s: InterfaceState) {
    s == Down || s == Loopback || s == PointToPoint
  }

  /** The state of an interface and the event it has received but not yet handled. */
  datatype Condition = Condition(state: InterfaceState, pending: Option<InterfaceEvent>) {
    /** The state once the pending event is handled. */
    function Settled(): InterfaceState {
      match pending case None => state case Some(e) => NextState(state, e)
    }
  }

  class Interface {
    var state: InterfaceState
    var pending: Option<InterfaceEvent>
    const id: InterfaceID
    const type_: InterfaceType
    const routerPriority: nat

    /** newInterface. */
    constructor (id: InterfaceID)
      ensures this.id == id && Now() == Condition(Down, None)
    {
      this.id := id;
      type_ := TypePointToPoint;
      routerPriority := 1;
      state := Down;
      pending := None;
    }

    function Now(): Condition
      reads this
    {
      Condition(state, pending)
    }

    function Settled(): InterfaceState
      reads this
    {
      Now().Settled()
    }

    predicate IsPTP() { type_.TypePointToPoint? }

    predicate IsPTMP() { type_.TypePointToMultipoint? || type_.TypePointToMultipointBroadcast? }

    predicate IsVirtualLink() { type_.TypeVirtualLink? }

    /** handleEvent. Whatever the branches for InterfaceUp set, by type and priority, is
        overwritten after them. */
    method HandleEvent(e: InterfaceEvent)
      modifies this`state
      ensures state == NextState(old(state), e)
      ensures e == InterfaceUp || e == UnloopInd ==> state == PointToPoint
      ensures e == LoopInd ==> state == Loopback
      ensures e == InterfaceDown ==> state == Down
      ensures e !in {InterfaceUp, LoopInd, UnloopInd, InterfaceDown} ==> state == old(state)
    {
      match e
      case InterfaceUp =>
        if IsPTP() || IsPTMP() || IsVirtualLink() {
          state := PointToPoint;
        } else if routerPriority == 0 {
          state := DROther;
        } else {
          state := Waiting;
        }
        state := PointToPoint;
      case LoopInd => state := Loopback;
      case UnloopInd => state := PointToPoint;
      case InterfaceDown => state := Down;
      case _ =>
    }

    /** The goroutine handles the event it has received. */
    method HandlePending()
      modifies this
      ensures pending == None && state == old(Settled())
    {
      if pending.Some? {
        HandleEvent(pending.value);
      }
      pending := None;
    }

    /** The goroutine may or may not get that far before the next read. */
    method MaybeHandlePending()
      modifies this
      ensures Settled() == old(Settled())
      ensures (state == old(state) && pending == old(pending)) || (state == old(Settled()) && pending == None)
    {
      if * {
        HandlePending();
      }
    }

    /** sendEvent returns when the goroutine has received the event, for which it must have
        handled the one before. */
    method SendEvent(e: InterfaceEvent)
      modifies this
      ensures state == old(Settled()) && pending == Some(e)
    {
      HandlePending();
      pending := Some(e);
    }

    /** sendEventWait returns when the event is handled. */
    method SendEventWait(e: InterfaceEvent)
      modifies this
      ensures state == NextState(old(Settled()), e) && pending == None
    {
      SendEvent(e);
      HandlePending();
    }

    method IsUp() returns (up: bool)
      modifies this
      ensures Settled() == old(Settled())
      ensures (state == old(state) && pending == old(pending)) || (state == old(Settled()) && pending == None)
      ensures up <==> state != Down
    {
      MaybeHandlePending();
      up := state != Down;
    }

    method IsLoopback() returns (loop: bool)
      modifies this
      ensures Settled() == old(Settled())
      ensures (state == old(state) && pending == old(pending)) || (state == old(Settled()) && pending == None)
      ensures loop <==> state == Loopback
    {
      MaybeHandlePending();
      loop := state == Loopback;
    }
  }

  /** A network interface as the machine reports it. */
  datatype Netif = Netif(name: string, up: bool, loopback: bool, prefixes: seq<Prefix>)

  /** netifPrefixesV4. */
  function PrefixesV4(prefixes: seq<Prefix>): seq<Prefix> {
    if prefixes == [] then []
    else
      var rest := PrefixesV4(prefixes[..|prefixes| - 1]);
      var last := prefixes[|prefixes| - 1];
      if last.is4 then rest + [last] else rest
  }

  lemma {:induction false} PrefixesV4Are(prefixes: seq<Prefix>, p: Prefix)
    ensures p in PrefixesV4(prefixes) <==> p in prefixes && p.is4
  {
    if prefixes != [] {
      var init, last := prefixes[..|prefixes| - 1], prefixes[|prefixes| - 1];
      PrefixesV4Are(init, p);
      assert prefixes == init + [last];
    }
  }

  /** The state an up interface should be in. */
  function Target(netif: Netif): InterfaceState {
    if netif.loopback then Loopback else PointToPoint
  }

  /** Which state an interface ends in once told what changed. It is read twice: first is
      whether its pending event was handled by the first read, second whether what was pending
      then, or was sent after the first read, was handled by the second. */
  function Ends(c: Condition, netif: Netif, first: bool, second: bool): InterfaceState {
    var t := c.Settled();
    var up := (if first then t else c.state) != Down;
    if netif.up && !up then AfterFlag(NextState(t, InterfaceUp), netif, if second then NextState(t, InterfaceUp) else t)
    else if !netif.up && up then
      AfterFlag(NextState(t, InterfaceDown), netif, if second then NextState(t, InterfaceDown) else t)
    else AfterFlag(t, netif, if first || second then t else c.state)
  }

  /** The second comparison: t is the state once all events are handled, seen the one read. */
  function AfterFlag(t: InterfaceState, netif: Netif, seen: InterfaceState): InterfaceState {
    if netif.loopback && seen != Loopback then Loopback
    else if !netif.loopback && seen == Loopback then PointToPoint
    else t
  }

  /** iface, once all its events are handled, is where some interleaving takes it from c. */
  predicate Reacted(iface: Interface, c: Condition, netif: Netif)
    reads iface
  {
    exists first, second :: iface.Settled() == Ends(c, netif, first, second)
  }

  /** Tells an interface what changed, whatever the two reads see. */
  method DetectChanges(iface: Interface, netif: Netif)
    requires Resting(iface.Settled())
    modifies iface
    ensures Resting(iface.Settled())
    ensures Reacted(iface, old(iface.Now()), netif)
  {
    ghost var c := iface.Now();
    var up := iface.IsUp();
    ghost var first := iface.pending == None;
    if netif.up && !up {
      iface.SendEvent(InterfaceUp);
    } else if !netif.up && up {
      iface.SendEvent(InterfaceDown);
    }
    var loop := iface.IsLoopback();
    ghost var second := iface.pending == None;
    if netif.loopback && !loop {
      iface.SendEvent(LoopInd);
    } else if !netif.loopback && loop {
      iface.SendEvent(UnloopInd);
    }
    assert iface.Settled() == Ends(c, netif, first, second);
  }

  // ---------------------------------------------------------------- where interfaces settle

  /** The state an interface should be in: Down if it is not up. */
  function Goal(netif: Netif): InterfaceState {
    if netif.up then Target(netif) else Down
  }

  /** No interleaving takes the interface anywhere but to its goal. */
  ghost predicate Settles(c: Condition, netif: Netif) {
    forall first, second :: Ends(c, netif, first, second) == Goal(netif)
  }

  /** What can be told from the interface before it is told what changed: t is the state it
      will be in once its pending event is handled. */
  predicate Undisturbed(c: Condition, netif: Netif) {
    var t := c.Settled();
    if !netif.up then !netif.loopback && (if c.state == Down then t == Down else t != Loopback)
    else if c.state == Down then netif.loopback ==> t != Loopback
    else if netif.loopback then c.state == Loopback ==> t == Loopback
    else t == PointToPoint || (c.state == Loopback && t == Loopback)
  }

  /** An interface is sure to reach its goal exactly when it is undisturbed. */
  lemma SettlesIff(c: Condition, netif: Netif)
    requires Resting(c.state)
    ensures Settles(c, netif) <==> Undisturbed(c, netif)
  {
    assert Settles(c, netif) ==>
      && Ends(c, netif, false, false) == Goal(netif) && Ends(c, netif, false, true) == Goal(netif)
      && Ends(c, netif, true, false) == Goal(netif) && Ends(c, netif, true, true) == Goal(netif);
  }

  /** With no event pending, an interface that is up is sure to reach its goal. One that is
      down is sure to exactly when it is neither flagged as a loopback nor in Loopback. */
  lemma QuietSettlesIff(s: InterfaceState, netif: Netif)
    requires Resting(s)
    ensures Settles(Condition(s, None), netif) <==> netif.up || (!netif.loopback && s != Loopback)
  {
    SettlesIff(Condition(s, None), netif);
  }

  /** A loopback that is down: from Loopback it ends there or in Down, depending on whether the
      second read was stale; from any other state it ends in Loopback. */
  lemma DownLoopback(s: InterfaceState, netif: Netif)
    requires Resting(s) && !netif.up && netif.loopback
    ensures Ends(Condition(Loopback, None), netif, true, false) == Down
    ensures Ends(Condition(Loopback, None), netif, true, true) == Loopback
    ensures s != Loopback ==> forall first, second :: Ends(Condition(s, None), netif, first, second) == Loopback
  {
  }

  /** An interface in Loopback that is down and no loopback any more: after a stale read it
      ends in Point-to-point. */
  lemma DownEndsUp(netif: Netif)
    requires !netif.up && !netif.loopback
    ensures Ends(Condition(Loopback, None), netif, true, false) == PointToPoint
  {
  }

  /** An interface in Point-to-point goes down and comes up again. The first snapshot sends
      InterfaceDown; if the second reads the state before that is handled, it sends nothing,
      and the interface, which is up, ends in Down. */
  lemma UpEndsDown(down: Netif, up: Netif)
    requires !down.up && !down.loopback && up.up && !up.loopback
    ensures forall first, second :: Ends(Condition(PointToPoint, None), down, first, second) == Down
    ensures Ends(Condition(PointToPoint, Some(InterfaceDown)), up, false, false) == Down
    ensures !Undisturbed(Condition(PointToPoint, Some(InterfaceDown)), up)
  {
  }

  type Snapshot = map<string, Netif>

  /** The network interface is there and has the address. */
  predicate Present(names: Snapshot, id: InterfaceID) {
    id.name in names && id.prefix in names[id.name].prefixes && id.prefix.is4
  }

  /** The interface was told what its network interface is now, from condition c. */
  ghost predicate Told(iface: Interface, c: Condition, names: Snapshot)
    reads iface
  {
    iface.id.name in names && Reacted(iface, c, names[iface.id.name])
  }

  /** What the first loop of updateInterfaces does with one interface: one that is gone goes
      down, another is told what changed. */
  method ReconcileOne(iface: Interface, names: Snapshot) returns (keep: bool)
    requires Resting(iface.Settled())
    modifies iface
    ensures Resting(iface.Settled())
    ensures keep <==> Present(names, iface.id)
    ensures keep ==> Told(iface, old(iface.Now()), names)
    ensures !keep ==> iface.state == Down && iface.pending == None
  {
    if iface.id.name !in names {
      iface.SendEventWait(InterfaceDown);
      return false;
    }
    var netif := names[iface.id.name];
    var prefixes := PrefixesV4(netif.prefixes);
    PrefixesV4Are(netif.prefixes, iface.id.prefix);
    var found := false;
    for i := 0 to |prefixes|
      invariant found <==> iface.id.prefix in prefixes[..i]
      invariant iface.Now() == old(iface.Now())
    {
      if prefixes[i] == iface.id.prefix {
        found := true;
      }
    }
    assert prefixes[..|prefixes|] == prefixes;
    if !found {
      iface.SendEventWait(InterfaceDown);
      return false;
    }
    DetectChanges(iface, netif);
    keep := true;
  }

  /** A new interface, started and told its state. */
  method StartInterface(id: InterfaceID, names: Snapshot) returns (iface: Interface)
    requires id.name in names
    ensures fresh(iface) && iface.id == id && Resting(iface.Settled())
    ensures Told(iface, Condition(Down, None), names)
  {
    iface := new Interface(id);
    var netif := names[id.name];
    if netif.up {
      iface.SendEvent(InterfaceUp);
    }
    if netif.loopback {
      iface.SendEvent(LoopInd);
    }
    assert iface.Settled() == Ends(Condition(Down, None), netif, true, true);
  }

  class Instance {
    const configured: set<string>
    var interfaces: map<InterfaceID, Interface>
    var cancelFuncs: set<InterfaceID>

    ghost predicate Valid()
      reads this, interfaces.Values
    {
      (forall id :: id in interfaces ==> InterfaceOk(id)) && interfaces.Keys <= cancelFuncs
    }

    ghost predicate InterfaceOk(id: InterfaceID)
      requires id in interfaces
      reads this, interfaces.Values
    {
      interfaces[id].id == id && id.name in configured && Resting(interfaces[id].Settled())
    }

    /** One interface for every IPv4 prefix of every configured network interface that is
        present. */
    ghost predicate Wanted(names: Snapshot, id: InterfaceID) {
      id.name in configured && Present(names, id)
    }

    ghost function Conditions(): map<InterfaceID, Condition>
      reads this, interfaces.Values
    {
      map id | id in interfaces :: interfaces[id].Now()
    }

    constructor (configured: set<string>)
      ensures this.configured == configured && Valid() && interfaces == map[]
    {
      this.configured := configured;
      interfaces := map[];
      cancelFuncs := {};
    }

    /** The first loop: interfaces that are gone are cancelled and removed. The map is ranged
        over in any order. */
    method UpdateExisting(names: Snapshot) returns (ok: bool)
      requires Valid()
      modifies this, interfaces.Values
      ensures ok && Valid()
      ensures interfaces.Keys == set id | id in old(interfaces) && Present(names, id)
      ensures forall id :: id in interfaces ==> interfaces[id] == old(interfaces[id])
      ensures forall id :: id in interfaces ==>
        id in old(Conditions()) && Told(interfaces[id], old(Conditions())[id], names)
    {
      hide InterfaceOk, Present, Told, Resting, NextState;
      ghost var before := Conditions();
      var todo := interfaces.Keys;
      while todo != {}
        invariant todo <= interfaces.Keys && Valid()
        invariant forall id :: id in interfaces ==> id in old(interfaces) && interfaces[id] == old(interfaces[id])
        invariant forall id :: id in old(interfaces) ==> (id in interfaces <==> id in todo || Present(names, id))
        invariant forall id :: id in todo ==> interfaces[id].Now() == before[id]
        invariant forall id :: id in interfaces && id !in todo ==> Told(interfaces[id], before[id], names)
        decreases |todo|
      {
        var id :| id in todo;
        todo := todo - {id};
        var done := UpdateOne(id, names);
        if !done {
          return false;
        }
      }
      ok := true;
    }

    method UpdateOne(id: InterfaceID, names: Snapshot) returns (ok: bool)
      requires Valid() && id in interfaces
      modifies this, interfaces[id]
      ensures ok && Valid()
      ensures interfaces == if Present(names, id) then old(interfaces) else old(interfaces) - {id}
      ensures id in interfaces ==> Told(interfaces[id], old(interfaces[id].Now()), names)
      ensures forall o :: o in interfaces && o != id ==> interfaces[o] != old(interfaces[id])
    {
      assert InterfaceOk(id);
      forall o | o in interfaces && o != id ensures interfaces[o] != interfaces[id] {
        assert InterfaceOk(o);
      }
      var keep := ReconcileOne(interfaces[id], names);
      if !keep {
        if id !in cancelFuncs {
          return false;
        }
        interfaces := interfaces - {id};
      }
      ok := true;
    }

    /** The second loop: the interfaces that should be there and are not yet. */
    method AddMissing(names: Snapshot)
      requires Valid() && forall id :: id in interfaces ==> Wanted(names, id)
      modifies this
      ensures Valid() && Extends(old(interfaces), names)
      ensures forall id :: id in interfaces <==> Wanted(names, id)
    {
      var todo := configured;
      while todo != {}
        invariant todo <= configured && Valid() && Extends(old(interfaces), names)
        invariant forall id :: id in interfaces ==> Wanted(names, id)
        invariant forall id :: Wanted(names, id) && id.name !in todo ==> id in interfaces
        decreases |todo|
      {
        var name :| name in todo;
        todo := todo - {name};
        if name in names {
          AddPrefixes(names, name);
        }
      }
    }

    /** The interfaces that were there still are, and the new ones have been told their state. */
    twostate predicate Extends(before: map<InterfaceID, Interface>, names: Snapshot)
      reads this, interfaces.Values
    {
      && (forall id :: id in before ==> id in interfaces && interfaces[id] == before[id])
      && (forall id :: id in interfaces && id !in before ==>
            fresh(interfaces[id]) && Told(interfaces[id], Condition(Down, None), names))
    }

    method AddInterface(names: Snapshot, id: InterfaceID)
      requires Valid() && Wanted(names, id) && id !in interfaces
      modifies this
      ensures Valid() && id in interfaces && interfaces == old(interfaces)[id := interfaces[id]]
      ensures fresh(interfaces[id]) && Told(interfaces[id], Condition(Down, None), names)
    {
      var iface := StartInterface(id, names);
      interfaces := interfaces[id := iface];
      cancelFuncs := cancelFuncs + {id};
    }

    method AddPrefixes(names: Snapshot, name: string)
      requires Valid() && name in configured && name in names
      requires forall id :: id in interfaces ==> Wanted(names, id)
      modifies this
      ensures Valid() && Extends(old(interfaces), names)
      ensures forall id :: id in interfaces ==> Wanted(names, id)
      ensures forall id :: Wanted(names, id) && id.name == name ==> id in interfaces
    {
      hide PrefixesV4, Resting, Told, InterfaceOk;
      var prefixes := PrefixesV4(names[name].prefixes);
      forall p ensures p in prefixes <==> p in names[name].prefixes && p.is4 {
        PrefixesV4Are(names[name].prefixes, p);
      }
      for i := 0 to |prefixes|
        invariant Valid() && Extends(old(interfaces), names)
        invariant forall id :: id in interfaces ==> Wanted(names, id)
        invariant forall j :: 0 <= j < i ==> InterfaceID(name, prefixes[j]) in interfaces
      {
        var id := InterfaceID(name, prefixes[i]);
        if id !in interfaces {
          AddInterface(names, id);
        }
      }
    }

    /** updateInterfaces, once the network interfaces have been listed: it never fails, as every
        interface has a cancel function, and leaves exactly the interfaces there should be,
        each told its state from the condition it was in; new ones were Down. SettlesIff says
        where that leads. */
    method UpdateInterfaces(netifs: seq<Netif>) returns (ok: bool)
      requires Valid()
      modifies this, interfaces.Values
      ensures ok && Valid()
      ensures forall id :: id in interfaces <==> Wanted(ByName(netifs), id)
      ensures forall id :: id in interfaces && id in old(interfaces) ==> interfaces[id] == old(interfaces[id])
      ensures forall id :: id in interfaces ==>
        Told(interfaces[id], ConditionOf(old(Conditions()), id), ByName(netifs))
    {
      var nameToNetif: Snapshot := map[];
      for i := 0 to |netifs|
        invariant nameToNetif == ByName(netifs[..i])
        invariant interfaces == old(interfaces) && Valid() && Conditions() == old(Conditions())
      {
        assert netifs[..i + 1][..i] == netifs[..i];
        nameToNetif := nameToNetif[netifs[i].name := netifs[i]];
      }
      assert netifs[..|netifs|] == netifs;
      ok := UpdateExisting(nameToNetif);
      assert forall id :: id in interfaces ==> InterfaceOk(id);
      AddMissing(nameToNetif);
    }
  }

  /** The condition an interface is told from; a new one is Down. */
  function ConditionOf(before: map<InterfaceID, Condition>, id: InterfaceID): Condition {
    if id in before then before[id] else Condition(Down, None)
  }

  /** A later entry replaces an earlier one of the same name. */
  function ByName(netifs: seq<Netif>): Snapshot {
    if netifs == [] then map[]
    else ByName(netifs[..|netifs| - 1])[netifs[|netifs| - 1].name := netifs[|netifs| - 1]]
  }
}
