// The dependency graph of services and its depth-first ordering.

module ConfigGraph {
  import opened Prelude

  datatype ServiceType = APIServerType | InterfaceMonitorType | OSPFType

  datatype ServiceID = ServiceID(t: ServiceType, name: string)

  type Nodes = map<ServiceID, seq<ServiceID>>

  /** The dependencies of a service; one that was never added has none. */
  function Deps(nodes: Nodes, s: ServiceID): seq<ServiceID> {
    if s in nodes then nodes[s] else []
  }

  // ---------------------------------------------------------------- reachability

  ghost predicate IsPath(nodes: Nodes, p: seq<ServiceID>) {
    p != [] && forall i :: 0 <= i < |p| - 1 ==> p[i + 1] in Deps(nodes, p[i])
  }

  /** b is a, or a dependency of a, or a dependency of a dependency, and so on. */
  ghost predicate Reaches(nodes: Nodes, a: ServiceID, b: ServiceID) {
    exists p :: IsPath(nodes, p) && p[0] == a && p[|p| - 1] == b
  }

  lemma ReachesItself(nodes: Nodes, a: ServiceID)
    ensures Reaches(nodes, a, a)
  {
    assert IsPath(nodes, [a]) && [a][0] == a;
  }

  lemma ReachesDep(nodes: Nodes, a: ServiceID, b: ServiceID, d: ServiceID)
    requires Reaches(nodes, a, b) && d in Deps(nodes, b)
    ensures Reaches(nodes, a, d)
  {
    var p :| IsPath(nodes, p) && p[0] == a && p[|p| - 1] == b;
    var q := p + [d];
    assert IsPath(nodes, q) && q[0] == a && q[|q| - 1] == d;
  }

  lemma DepReaches(nodes: Nodes, a: ServiceID, d: ServiceID, b: ServiceID)
    requires d in Deps(nodes, a) && Reaches(nodes, d, b)
    ensures Reaches(nodes, a, b)
  {
    hide Deps;
    var p :| IsPath(nodes, p) && p[0] == d && p[|p| - 1] == b;
    var q := [a] + p;
    forall i | 0 <= i < |q| - 1 ensures q[i + 1] in Deps(nodes, q[i]) {
      if i > 0 {
        assert p[i - 1 + 1] in Deps(nodes, p[i - 1]);
      }
    }
    assert IsPath(nodes, q) && q[0] == a && q[|q| - 1] == b;
  }

  // ---------------------------------------------------------------- orders

  ghost predicate Precedes(stack: seq<ServiceID>, d: ServiceID, s: ServiceID) {
    exists i, j :: 0 <= i < j < |stack| && stack[i] == d && stack[j] == s
  }

  /** Every dependency of a listed service precedes it, or depends on it in turn. */
  ghost predicate Ordered(nodes: Nodes, stack: seq<ServiceID>) {
    forall s, d :: s in stack && d in Deps(nodes, s) ==> Precedes(stack, d, s) || Reaches(nodes, d, s)
  }

  ghost predicate FromKeys(nodes: Nodes, s: ServiceID) {
    exists k :: k in nodes && Reaches(nodes, k, s)
  }

  /** Exactly the services reachable from the graph's keys, each once, in order. */
  ghost predicate Sorted(nodes: Nodes, stack: seq<ServiceID>) {
    && Distinct(stack)
    && (forall s :: s in stack <==> FromKeys(nodes, s))
    && Ordered(nodes, stack)
  }

  lemma PrecedesLonger(stack: seq<ServiceID>, more: seq<ServiceID>, d: ServiceID, s: ServiceID)
    requires Precedes(stack, d, s)
    ensures Precedes(stack + more, d, s)
  {
    var i, j :| 0 <= i < j < |stack| && stack[i] == d && stack[j] == s;
    assert (stack + more)[i] == d && (stack + more)[j] == s;
  }

  // ---------------------------------------------------------------- the traversal

  /** All services that the graph mentions. */
  ghost function Mentioned(nodes: Nodes): set<ServiceID> {
    nodes.Keys + set k, d | k in nodes && d in nodes[k] :: d
  }

  class Graph {
    var nodes: Nodes

    constructor ()
      ensures nodes == map[]
    {
      nodes := map[];
    }

    method AddNode(id: ServiceID, deps: seq<ServiceID>)
      modifies this
      ensures nodes == old(nodes)[id := deps]
    {
      nodes := nodes[id := deps];
    }

    /** The keys are visited in any order, as Go ranges over a map. */
    method TopologicalSort() returns (stack: seq<ServiceID>)
      ensures Sorted(nodes, stack)
    {
      var t := new Traversal(nodes);
      var todo := nodes.Keys;
      while todo != {}
        invariant fresh(t) && t.nodes == nodes && todo <= nodes.Keys
        invariant Good(nodes, t.visited, t.stack, {})
        invariant forall k :: k in nodes && k !in todo ==> k in t.visited
        invariant forall s :: s in t.stack ==> FromKeys(nodes, s)
        decreases |todo|
      {
        var service :| service in todo;
        t.Visit(service, {});
        todo := todo - {service};
      }
      stack := t.stack;
      forall s | FromKeys(nodes, s) ensures s in stack {
        var k :| k in nodes && Reaches(nodes, k, s);
        var p :| IsPath(nodes, p) && p[0] == k && p[|p| - 1] == s;
        ClosedUnderPaths(nodes, t.visited, t.stack, p);
      }
    }
  }

  /** The state of the traversal; active are the services whose visit has begun and not ended. */
  ghost predicate Good(nodes: Nodes, visited: set<ServiceID>, stack: seq<ServiceID>, active: set<ServiceID>) {
    && visited <= Mentioned(nodes)
    && Distinct(stack)
    && (forall s :: s in visited <==> s in stack || s in active)
    && (forall s :: s in stack ==> s !in active)
    && Ordered(nodes, stack)
    && (forall s, d :: s in stack && d in Deps(nodes, s) ==> d in visited)
  }

  /** A visit ends: its service goes on the stack, above those of its dependencies that do not
      depend on it. */
  lemma PushGood(nodes: Nodes, visited: set<ServiceID>, stack: seq<ServiceID>, active: set<ServiceID>,
        service: ServiceID)
    requires Good(nodes, visited, stack, active + {service}) && service !in active
    requires forall a :: a in active + {service} ==> Reaches(nodes, a, service)
    requires forall d :: d in Deps(nodes, service) ==> d in visited
    ensures Good(nodes, visited, stack + [service], active)
  {
    var after := stack + [service];
    forall s, d | s in after && d in Deps(nodes, s) ensures Precedes(after, d, s) || Reaches(nodes, d, s) {
      if s in stack {
        if Precedes(stack, d, s) {
          PrecedesLonger(stack, [service], d, s);
        }
      } else if d in stack {
        var i :| 0 <= i < |stack| && stack[i] == d;
        assert after[i] == d && after[|stack|] == service;
      }
    }
  }

  /** A visit begins. */
  lemma BeginGood(nodes: Nodes, visited: set<ServiceID>, stack: seq<ServiceID>, active: set<ServiceID>,
        service: ServiceID)
    requires Good(nodes, visited, stack, active) && service !in visited && service in Mentioned(nodes)
    ensures Good(nodes, visited + {service}, stack, active + {service})
  {
  }

  /** What is visited is closed under dependencies, and so under paths. */
  lemma {:induction false} ClosedUnderPaths(nodes: Nodes, visited: set<ServiceID>, stack: seq<ServiceID>,
        p: seq<ServiceID>)
    requires Good(nodes, visited, stack, {}) && IsPath(nodes, p) && p[0] in visited
    ensures p[|p| - 1] in stack
    decreases |p|
  {
    if |p| > 1 {
      assert p[0 + 1] in Deps(nodes, p[0]);
      PathTail(nodes, p);
      ClosedUnderPaths(nodes, visited, stack, p[1..]);
    }
  }

  lemma PathTail(nodes: Nodes, p: seq<ServiceID>)
    requires IsPath(nodes, p) && |p| > 1
    ensures IsPath(nodes, p[1..])
  {
    var q := p[1..];
    forall i | 0 <= i < |q| - 1 ensures q[i + 1] in Deps(nodes, q[i]) {
      assert p[i + 1 + 1] in Deps(nodes, p[i + 1]);
    }
  }

  /** The variables the recursive closure shares. */
  class Traversal {
    const nodes: Nodes
    var visited: set<ServiceID>
    var stack: seq<ServiceID>

    constructor (nodes: Nodes)
      ensures this.nodes == nodes && visited == {} && stack == []
    {
      this.nodes := nodes;
      visited := {};
      stack := [];
    }

    method Visit(service: ServiceID, ghost active: set<ServiceID>)
      requires service in Mentioned(nodes)
      requires Good(nodes, visited, stack, active) && forall a :: a in active ==> Reaches(nodes, a, service)
      modifies this
      ensures Good(nodes, visited, stack, active) && service in visited && old(visited) <= visited
      ensures old(stack) <= stack
      ensures forall s :: s in stack && s !in old(stack) ==> Reaches(nodes, service, s)
      decreases Mentioned(nodes) - visited, 0
    {
      ReachesItself(nodes, service);
      if service !in visited {
        ghost var inside := active + {service};
        BeginGood(nodes, visited, stack, active, service);
        visited := visited + {service};
        VisitAll(Deps(nodes, service), service, inside);
        PushGood(nodes, visited, stack, active, service);
        stack := stack + [service];
      }
    }

    /** The loop over the dependencies of a service whose visit has begun. */
    method VisitAll(deps: seq<ServiceID>, service: ServiceID, ghost inside: set<ServiceID>)
      requires deps == Deps(nodes, service) && service in inside
      requires Good(nodes, visited, stack, inside) && forall a :: a in inside ==> Reaches(nodes, a, service)
      modifies this
      ensures Good(nodes, visited, stack, inside) && old(visited) <= visited
      ensures old(stack) <= stack
      ensures forall d :: d in deps ==> d in visited
      ensures forall s :: s in stack && s !in old(stack) ==> Reaches(nodes, service, s)
      decreases Mentioned(nodes) - visited, 1
    {
      hide Reaches, Good;
      for i := 0 to |deps|
        invariant Good(nodes, visited, stack, inside) && old(visited) <= visited
        invariant old(stack) <= stack
        invariant forall j :: 0 <= j < i ==> deps[j] in visited
        invariant forall s :: s in stack && s !in old(stack) ==> Reaches(nodes, service, s)
      {
        forall a | a in inside ensures Reaches(nodes, a, deps[i]) {
          ReachesDep(nodes, a, service, deps[i]);
        }
        assert service in nodes && deps[i] in nodes[service];
        ghost var before := stack;
        Visit(deps[i], inside);
        forall s | s in stack && s !in before ensures Reaches(nodes, service, s) {
          DepReaches(nodes, service, deps[i], s);
        }
      }
    }
  }

  // ---------------------------------------------------------------- without cycles

  ghost predicate Acyclic(nodes: Nodes) {
    forall s, d :: d in Deps(nodes, s) ==> !Reaches(nodes, d, s)
  }

  /** Every dependency comes before what needs it. */
  ghost predicate AllFirst(nodes: Nodes, stack: seq<ServiceID>) {
    forall s, d :: s in stack && d in Deps(nodes, s) ==> Precedes(stack, d, s)
  }

  /** Where dependencies come first, paths lead backwards. */
  lemma {:induction false} PathBackwards(nodes: Nodes, stack: seq<ServiceID>, p: seq<ServiceID>, i: nat)
    returns (j: nat)
    requires Distinct(stack) && AllFirst(nodes, stack)
    requires IsPath(nodes, p) && i < |stack| && stack[i] == p[0]
    ensures j <= i && stack[j] == p[|p| - 1]
    decreases |p|
  {
    if |p| == 1 {
      j := i;
    } else {
      assert p[0 + 1] in Deps(nodes, p[0]) && p[0] in stack;
      assert Precedes(stack, p[1], p[0]);
      var a, b :| 0 <= a < b < |stack| && stack[a] == p[1] && stack[b] == p[0];
      assert b == i;
      PathTail(nodes, p);
      j := PathBackwards(nodes, stack, p[1..], a);
    }
  }

  lemma NoCycleWhenFirst(nodes: Nodes, stack: seq<ServiceID>, s: ServiceID, d: ServiceID)
    requires Sorted(nodes, stack) && AllFirst(nodes, stack) && d in Deps(nodes, s)
    ensures !Reaches(nodes, d, s)
  {
    if Reaches(nodes, d, s) {
      ReachesItself(nodes, s);
      assert FromKeys(nodes, s) && s in stack;
      assert Precedes(stack, d, s);
      var a, b :| 0 <= a < b < |stack| && stack[a] == d && stack[b] == s;
      var p :| IsPath(nodes, p) && p[0] == d && p[|p| - 1] == s;
      var j := PathBackwards(nodes, stack, p, a);
      assert false;
    }
  }

  /** In a sorted graph every dependency comes before what needs it exactly when there are no
      cycles. */
  lemma DependenciesFirst(nodes: Nodes, stack: seq<ServiceID>)
    requires Sorted(nodes, stack)
    ensures AllFirst(nodes, stack) <==> Acyclic(nodes)
  {
    if AllFirst(nodes, stack) {
      forall s, d | d in Deps(nodes, s) ensures !Reaches(nodes, d, s) {
        NoCycleWhenFirst(nodes, stack, s, d);
      }
    }
    if Acyclic(nodes) {
      forall s, d | s in stack && d in Deps(nodes, s) ensures Precedes(stack, d, s) {
        assert Precedes(stack, d, s) || Reaches(nodes, d, s);
      }
    }
  }

  /** Two services that depend on each other are sorted, and one of them comes too early. */
  lemma CycleIsSorted(nodes: Nodes, a: ServiceID, b: ServiceID, stack: seq<ServiceID>)
    requires a != b && nodes == map[a := [b], b := [a]] && stack == [b, a]
    ensures Sorted(nodes, stack)
    ensures a in Deps(nodes, b) && !Precedes(stack, a, b)
  {
    forall s | FromKeys(nodes, s) ensures s in stack {
      var k :| k in nodes && Reaches(nodes, k, s);
      var p :| IsPath(nodes, p) && p[0] == k && p[|p| - 1] == s;
      PathInside(nodes, p, {a, b});
    }
    forall s | s in stack ensures FromKeys(nodes, s) {
      ReachesItself(nodes, s);
    }
    ReachesItself(nodes, a);
    ReachesItself(nodes, b);
    ReachesDep(nodes, a, a, b);
    ReachesDep(nodes, b, b, a);
  }

  /** A path that starts in a set closed under dependencies stays there. */
  lemma {:induction false} PathInside(nodes: Nodes, p: seq<ServiceID>, known: set<ServiceID>)
    requires forall k, d :: k in nodes && d in nodes[k] ==> d in known
    requires IsPath(nodes, p) && p[0] in known
    ensures p[|p| - 1] in known
    decreases |p|
  {
    if |p| > 1 {
      assert p[0 + 1] in Deps(nodes, p[0]);
      PathTail(nodes, p);
      PathInside(nodes, p[1..], known);
    }
  }
}
