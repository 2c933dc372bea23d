// Which services a configuration starts, in which order, and with what.

module ServiceConfig {
  import opened Prelude
  import opened ConfigGraph

  const API_SERVER := ServiceID(APIServerType, "APIServer")
  const INTERFACE_MONITOR := ServiceID(InterfaceMonitorType, "InterfaceMonitor")
  const OSPF := ServiceID(OSPFType, "OSPF")

  /** The configuration of a protocol; there is only OSPF. It maps areas to the names of their
      interfaces; the other settings do not matter here. */
  datatype ProtocolConfig = OSPFConfig(areas: map<nat, seq<string>>, settings: nat)

  predicate ShouldRun(c: ProtocolConfig) {
    exists a :: a in c.areas && |c.areas[a]| > 0
  }

  /** shouldRun, for any order of the areas. */
  method RunNow(c: ProtocolConfig) returns (run: bool)
    ensures run <==> exists a :: a in c.areas && c.areas[a] != []
  {
    var todo := c.areas.Keys;
    while todo != {}
      invariant todo <= c.areas.Keys && forall a :: a in c.areas && a !in todo ==> c.areas[a] == []
      decreases |todo|
    {
      var a :| a in todo;
      if |c.areas[a]| > 0 {
        return true;
      }
      todo := todo - {a};
    }
    run := false;
  }

  function Dependencies(c: ProtocolConfig): seq<ServiceID> {
    [INTERFACE_MONITOR]
  }

  datatype Bootstrap = Bootstrap(id: ServiceID, config: Option<ProtocolConfig>)

  function IdsOf(bs: seq<Bootstrap>): (ids: seq<ServiceID>)
    ensures |ids| == |bs| && forall i :: 0 <= i < |bs| ==> ids[i] == bs[i].id
  {
    seq(|bs|, i requires 0 <= i < |bs| => bs[i].id)
  }

  type Protocols = map<ServiceID, ProtocolConfig>

  /** The API server, and every protocol that should run, with their dependencies. */
  function GraphOf(pc: Protocols): Nodes {
    map s | s in {API_SERVER} + pc.Keys && (s == API_SERVER || ShouldRun(pc[s])) ::
      if s in pc && ShouldRun(pc[s]) then Dependencies(pc[s]) else []
  }

  class Config {
    var protocolConfigs: Protocols

    constructor (pc: Protocols)
      ensures protocolConfigs == pc
    {
      protocolConfigs := pc;
    }

    method Copy() returns (c: Config)
      ensures fresh(c) && c.protocolConfigs == protocolConfigs
    {
      c := new Config(map[]);
      var todo := protocolConfigs.Keys;
      while todo != {}
        invariant fresh(c) && todo <= protocolConfigs.Keys
        invariant c.protocolConfigs == map s | s in protocolConfigs && s !in todo :: protocolConfigs[s]
        decreases |todo|
      {
        var k :| k in todo;
        c.protocolConfigs := c.protocolConfigs[k := protocolConfigs[k]];
        todo := todo - {k};
      }
      assert c.protocolConfigs == protocolConfigs;
    }

    method BuildGraph() returns (g: Graph)
      ensures fresh(g) && g.nodes == GraphOf(protocolConfigs)
    {
      g := new Graph();
      g.AddNode(API_SERVER, []);
      assert GraphOf(map[]) == map[API_SERVER := []];
      hide GraphOf;
      var todo := protocolConfigs.Keys;
      ghost var seen: Protocols := map[];
      while todo != {}
        invariant fresh(g) && todo <= protocolConfigs.Keys
        invariant seen.Keys == protocolConfigs.Keys - todo && forall s :: s in seen ==> seen[s] == protocolConfigs[s]
        invariant g.nodes == GraphOf(seen)
        decreases |todo|
      {
        var s :| s in todo;
        var conf := protocolConfigs[s];
        GraphGrows(seen, s, conf);
        var run := RunNow(conf);
        if run {
          g.AddNode(s, Dependencies(conf));
        }
        seen := seen[s := conf];
        todo := todo - {s};
      }
      assert seen == protocolConfigs;
    }

    method Bootstraps() returns (bs: seq<Bootstrap>)
      ensures Sorted(GraphOf(protocolConfigs), IdsOf(bs))
      ensures forall b :: b in bs ==>
        b.config == if b.id in protocolConfigs then Some(protocolConfigs[b.id]) else None
    {
      var g := BuildGraph();
      var ids := g.TopologicalSort();
      bs := [];
      for i := 0 to |ids|
        invariant |bs| == i
        invariant forall j :: 0 <= j < i ==> bs[j].id == ids[j]
        invariant forall j :: 0 <= j < i ==>
          bs[j].config == if ids[j] in protocolConfigs then Some(protocolConfigs[ids[j]]) else None
      {
        var conf := if ids[i] in protocolConfigs then Some(protocolConfigs[ids[i]]) else None;
        bs := bs + [Bootstrap(ids[i], conf)];
      }
      assert IdsOf(bs) == ids;
    }
  }

  lemma GraphGrows(pc: Protocols, s: ServiceID, c: ProtocolConfig)
    requires s !in pc
    ensures GraphOf(pc[s := c]) == if ShouldRun(c) then GraphOf(pc)[s := Dependencies(c)] else GraphOf(pc)
  {
  }

  /** The graph of a configuration: the API server, which needs nothing, and every protocol with
      an interface in some area, which needs the interface monitor. */
  lemma GraphIs(pc: Protocols, s: ServiceID)
    ensures s in GraphOf(pc) <==>
      s == API_SERVER || (s in pc && exists a :: a in pc[s].areas && pc[s].areas[a] != [])
    ensures s in GraphOf(pc) ==>
      var runs := s in pc && exists a :: a in pc[s].areas && pc[s].areas[a] != [];
      GraphOf(pc)[s] == if runs then [INTERFACE_MONITOR] else []
  {
    if s in pc {
      assert ShouldRun(pc[s]) <==> exists a :: a in pc[s].areas && pc[s].areas[a] != [];
    }
  }

  // ---------------------------------------------------------------- what is started

  /** parseConfig accepts no other key. */
  predicate Parsed(pc: Protocols) {
    pc.Keys <= {OSPF}
  }

  /** The lists of services that a parsed configuration can start: distinct names, the API
      server among them, and the interface monitor before OSPF. */
  ghost predicate Startable(ids: seq<ServiceID>) {
    && (forall i, j :: 0 <= i < j < |ids| ==> ids[i].name != ids[j].name)
    && API_SERVER in ids
    && (OSPF in ids ==> Precedes(ids, INTERFACE_MONITOR, OSPF))
    && (forall s :: s in ids ==> s in {API_SERVER, INTERFACE_MONITOR, OSPF})
  }

  lemma OnlyKnownServices(nodes: Nodes, s: ServiceID, known: set<ServiceID>)
    requires nodes.Keys <= known && (forall k, d :: k in nodes && d in nodes[k] ==> d in known)
    requires FromKeys(nodes, s)
    ensures s in known
  {
    var k :| k in nodes && Reaches(nodes, k, s);
    var p :| IsPath(nodes, p) && p[0] == k && p[|p| - 1] == s;
    PathInside(nodes, p, known);
  }

  /** A parsed configuration starts a startable list, and starts OSPF exactly when some area
      has interfaces. */
  lemma BootstrapsAreStartable(pc: Protocols, ids: seq<ServiceID>)
    requires Parsed(pc) && Sorted(GraphOf(pc), ids)
    ensures Startable(ids)
    ensures OSPF in ids <==> OSPF in pc && exists a :: a in pc[OSPF].areas && pc[OSPF].areas[a] != []
  {
    hide GraphOf, FromKeys, Ordered, Precedes;
    KnownServices(pc, ids);
    OspfInOrder(pc, ids);
    DistinctNames(ids);
  }

  lemma KnownServices(pc: Protocols, ids: seq<ServiceID>)
    requires Parsed(pc) && Sorted(GraphOf(pc), ids)
    ensures API_SERVER in ids && forall s :: s in ids ==> s in {API_SERVER, INTERFACE_MONITOR, OSPF}
  {
    var nodes := GraphOf(pc);
    var known := {API_SERVER, INTERFACE_MONITOR, OSPF};
    GraphShape(pc);
    hide GraphOf, ShouldRun, Ordered;
    forall s | s in ids ensures s in known {
      OnlyKnownServices(nodes, s, known);
    }
    ReachesItself(nodes, API_SERVER);
    assert FromKeys(nodes, API_SERVER);
  }

  lemma GraphShape(pc: Protocols)
    requires Parsed(pc)
    ensures API_SERVER in GraphOf(pc) && GraphOf(pc).Keys <= {API_SERVER, INTERFACE_MONITOR, OSPF}
    ensures forall k, d :: k in GraphOf(pc) && d in GraphOf(pc)[k] ==> d in {API_SERVER, INTERFACE_MONITOR, OSPF}
  {
  }

  lemma DistinctNames(ids: seq<ServiceID>)
    requires Distinct(ids) && forall s :: s in ids ==> s in {API_SERVER, INTERFACE_MONITOR, OSPF}
    ensures forall i, j :: 0 <= i < j < |ids| ==> ids[i].name != ids[j].name
  {
    forall i, j | 0 <= i < j < |ids| ensures ids[i].name != ids[j].name {
      assert ids[i] in ids && ids[j] in ids;
      KnownNames(ids[i], ids[j]);
    }
  }

  lemma OspfInOrder(pc: Protocols, ids: seq<ServiceID>)
    requires Parsed(pc) && Sorted(GraphOf(pc), ids)
    ensures OSPF in ids <==> OSPF in pc && ShouldRun(pc[OSPF])
    ensures OSPF in ids ==> Precedes(ids, INTERFACE_MONITOR, OSPF)
  {
    var nodes := GraphOf(pc);
    if OSPF in pc && ShouldRun(pc[OSPF]) {
      ReachesItself(nodes, OSPF);
      assert FromKeys(nodes, OSPF);
      NotReachable(nodes, INTERFACE_MONITOR, OSPF);
      assert INTERFACE_MONITOR in Deps(nodes, OSPF);
    } else if OSPF in ids {
      OnlyKnownServices(nodes, OSPF, {API_SERVER});
    }
  }

  lemma KnownNames(a: ServiceID, b: ServiceID)
    requires a in {API_SERVER, INTERFACE_MONITOR, OSPF} && b in {API_SERVER, INTERFACE_MONITOR, OSPF} && a != b
    ensures a.name != b.name
  {
    Names();
  }

  lemma Names()
    ensures API_SERVER.name != INTERFACE_MONITOR.name && API_SERVER.name != OSPF.name &&
      INTERFACE_MONITOR.name != OSPF.name
  {
    assert "APIServer"[0] == 'A' && "InterfaceMonitor"[0] == 'I' && "OSPF"[0] == 'O';
  }

  lemma PathHead(nodes: Nodes, p: seq<ServiceID>)
    requires IsPath(nodes, p)
    ensures |p| == 1 || Deps(nodes, p[0]) != []
  {
    if |p| > 1 {
      assert p[0 + 1] in Deps(nodes, p[0]);
    }
  }

  /** A service without dependencies reaches nothing but itself. */
  lemma NotReachable(nodes: Nodes, a: ServiceID, b: ServiceID)
    requires Deps(nodes, a) == [] && a != b
    ensures !Reaches(nodes, a, b)
  {
    forall p | IsPath(nodes, p) && p[0] == a ensures p[|p| - 1] == a {
      PathHead(nodes, p);
    }
  }
}
