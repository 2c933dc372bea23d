// matchTokens and Invoker as the original runs them.

module CommandMatcher {
  import opened Prelude
  import opened Addresses
  import opened CommandTree
  import opened CommandTypes
  import opened CommandMatch
  import opened CommandCalls

  method MatchTokens(n: Node, tokens: seq<string>, v6: V6Parser) returns (matches: seq<Match>)
    requires WellFormed(n) && tokens != []
    ensures matches == MatchNodes(n, tokens, v6)
    decreases |tokens|, n, 1
  {
    hide MatchAtom, FixArgs, AtomsOnly;
    if n.t.Choice? {
      ChoiceAtoms(n);
      AltsWellFormed(n);
      matches := [];
      for i := 0 to |n.children|
        invariant matches == MatchAlts(n, i, tokens, v6)
      {
        var child1 := n.children[i];
        assert WellFormedAtom(child1);
        var ms := MatchTokens(child1, tokens, v6);
        SingleAlt(child1, tokens, v6);
        MatchAtomArgs(child1, tokens, v6);
        var fixed := FixMatches(n, i, ms);
        matches := matches + fixed;
      }
    } else {
      SingleAlt(n, tokens, v6);
      matches := MatchAtomTokens(n, tokens, v6);
    }
  }

  /** Sets the arguments of the matches ms of option i, if n is an explicit choice. */
  method FixMatches(n: Node, i: nat, ms: seq<Match>) returns (matches: seq<Match>)
    requires n.t.Choice? && i < |n.children| && AtomsOnly(n.children) && DistinctIds(n.children)
    requires forall m :: m in ms ==> m.node == n.children[i] && OwnArgs(n.children[i], m.args)
    ensures matches == seq(|ms|, l requires 0 <= l < |ms| => FixArgs(n, i, ms[l]))
  {
    matches := [];
    for j := 0 to |ms|
      invariant |matches| == j && forall l :: 0 <= l < j ==> matches[l] == FixArgs(n, i, ms[l])
    {
      var m := ms[j];
      if n.explicitChoice {
        var args := ChoiceArgs(n.children, i, m);
        m := m.(args := args);
      }
      matches := matches + [m];
    }
  }

  method MatchAtomTokens(n: Node, tokens: seq<string>, v6: V6Parser) returns (matches: seq<Match>)
    requires WellFormedAtom(n) && tokens != []
    ensures matches == MatchAtom(n, tokens, v6)
    decreases |tokens|, n, 0
  {
    var args := AtomArgs(n, tokens[0], v6);
    if args.None? {
      return [];
    }
    var found := Match(n, None, false, tokens[0], args.value);
    if |tokens| == 1 && n.handler.Some? {
      found := found.(isComplete := true);
    }
    if |tokens| == 1 {
      return [found];
    }
    if |n.children| == 0 {
      return [];
    }
    var childMatches := MatchTokens(n.children[0], tokens[1..], v6);
    matches := [];
    for j := 0 to |childMatches|
      invariant |matches| == j
      invariant forall l :: 0 <= l < j ==>
        matches[l] == Match(n, Some(childMatches[l]), childMatches[l].isComplete, tokens[0], args.value)
    {
      var dupedMatch := found.(next := Some(childMatches[j]));
      if childMatches[j].isComplete {
        dupedMatch := dupedMatch.(isComplete := true);
      }
      matches := matches + [dupedMatch];
    }
  }

  lemma MatchAtomArgs(a: Node, tokens: seq<string>, v6: V6Parser)
    requires WellFormedAtom(a) && tokens != []
    ensures forall m :: m in MatchAtom(a, tokens, v6) ==> m.node == a && OwnArgs(a, m.args)
  {
    if AtomArgs(a, tokens[0], v6).Some? {
      AtomOwnArgs(a, tokens[0], v6);
    }
  }

  lemma SingleAlt(a: Node, tokens: seq<string>, v6: V6Parser)
    requires !a.t.Choice? && tokens != []
    ensures MatchNodes(a, tokens, v6) == MatchAtom(a, tokens, v6)
  {
    var ms := MatchAtom(a, tokens, v6);
    assert Alts(a) == [a];
    assert MatchAlts(a, 0, tokens, v6) == [];
    assert seq(|ms|, i requires 0 <= i < |ms| => FixArgs(a, 0, ms[i])) == ms;
  }

  /** The argument list of an explicit choice of which option i matched as m. */
  method ChoiceArgs(kids: seq<Node>, i: nat, m: Match) returns (args: seq<Value>)
    requires i < |kids| && AtomsOnly(kids) && DistinctIds(kids)
    requires m.node == kids[i] && OwnArgs(kids[i], m.args)
    ensures args == ArgsUpTo(kids, i, m.args, |kids|)
  {
    hide AddArg;
    args := [];
    for j := 0 to |kids|
      invariant args == ArgsUpTo(kids, i, m.args, j)
    {
      var child2 := kids[j];
      assert child2 in kids;
      assert child2 == m.node <==> j == i;
      args := OptionArg(args, child2, m);
    }
  }

  /** What one option adds to the arguments of a choice that m matched. */
  method OptionArg(args: seq<Value>, child2: Node, m: Match) returns (r: seq<Value>)
    requires !child2.t.Choice? && OwnArgs(m.node, m.args)
    ensures r == AddArg(args, child2, child2 == m.node, m.args)
  {
    r := args;
    if child2 != m.node {
      if child2.t.Literal? {
        r := r + [BoolVal(false)];
      } else if IndexOfType(r, ParamType(child2.t, true).value) == -1 {
        r := r + [Zero(ParamType(child2.t, true).value)];
      }
    } else {
      if child2.t.Literal? {
        r := r + [BoolVal(true)];
      } else {
        var at := IndexOfType(r, TypeOf(m.args[0]));
        if at >= 0 {
          r := r[at := m.args[0]];
        } else {
          r := r + [m.args[0]];
        }
      }
    }
  }

  datatype Invoker = Invoker(args: seq<Value>, handler: Handler)

  datatype InvokeResult = Ready(invoker: Invoker) | Incomplete | InvariantViolation

  /** Match.Invoker on a match of the matcher: the invariant violation it tests for never
      occurs. */
  method MakeInvoker(m: Match) returns (r: InvokeResult)
    requires m.isComplete ==> Last(m).node.handler.Some?
    ensures r == if m.isComplete then Ready(Invoker(ChainArgs(m), Last(m).node.handler.value)) else Incomplete
  {
    if !m.isComplete {
      return Incomplete;
    }
    var args: seq<Value> := [];
    var cur := m;
    while true
      invariant args + ChainArgs(cur) == ChainArgs(m) && Last(cur) == Last(m)
      decreases cur
    {
      args := args + cur.args;
      if cur.next.None? {
        break;
      }
      cur := cur.next.value;
    }
    if cur.node.handler.None? {
      return InvariantViolation;
    }
    r := Ready(Invoker(args, cur.node.handler.value));
  }
}
