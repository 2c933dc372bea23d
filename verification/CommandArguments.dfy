// Which value each parameter of a command takes from the line: calls described token by
// token along the tree, apart from the functions that the matcher is specified with.

module CommandArguments {
  import opened Prelude
  import opened Addresses
  import opened CommandTree
  import opened CommandTypes
  import opened CommandMatch
  import opened CommandCalls

  // ---------------------------------------------------------------- one atom

  /** The printed dotted text of the octets o is the token. */
  ghost predicate IsTextOf(token: string, o: seq<nat>) {
    |o| == 4 && (forall i :: 0 <= i < 4 ==> o[i] <= 255) && token == Dotted(o)
  }

  /** What an atom passes for a token it accepts: nothing for a literal the token
      abbreviates, the token itself for a string, and the address it is the text of. */
  ghost predicate Takes(a: Node, token: string, v6: V6Parser, own: seq<Value>) {
    match a.t
    case Literal => token <= a.value && own == []
    case ParamString => own == [StrVal(token)]
    case ParamIPv4 => exists o :: IsTextOf(token, o) && own == [AddrVal(V4(o))]
    case ParamIPv6 => exists c :: v6(token) == Some(c) && own == [AddrVal(V6(c))]
    case Choice => false
  }

  lemma AtomTakes(a: Node, token: string, v6: V6Parser, own: seq<Value>)
    ensures AtomArgs(a, token, v6) == Some(own) <==> Takes(a, token, v6, own)
  {
    hide Dotted, IsIPv4;
    if a.t.ParamIPv4? {
      forall o ensures ParseIPv4(token) == Some(V4(o)) <==> IsTextOf(token, o) {
        DottedIff(token, o);
      }
      if ParseIPv4(token).Some? {
        assert IsTextOf(token, ParseIPv4(token).value.octets);
      }
    }
  }

  // ---------------------------------------------------------------- an explicit choice

  predicate IsAddress(t: NodeType) {
    t == ParamIPv4 || t == ParamIPv6
  }

  /** Two parameters that pass values of one Go type. */
  predicate SameSort(a: Node, b: Node) {
    (a.t == ParamString && b.t == ParamString) || (IsAddress(a.t) && IsAddress(b.t))
  }

  /** An option with an argument of its own: a literal, or the first parameter of its sort. */
  predicate Opens(kids: seq<Node>, j: nat)
    requires j < |kids|
  {
    kids[j].t == Literal || (kids[j].t != Choice && forall l :: 0 <= l < j ==> !SameSort(kids[l], kids[j]))
  }

  /** How many of the first k options have an argument of their own. */
  function Openers(kids: seq<Node>, k: nat): nat
    requires k <= |kids|
  {
    if k == 0 then 0 else Openers(kids, k - 1) + if Opens(kids, k - 1) then 1 else 0
  }

  /** The argument of option j when option i matched with own: for a literal, whether it is
      what matched; for parameters, the value of the one that matched, or else nothing. */
  ghost predicate Holds(kids: seq<Node>, i: nat, own: seq<Value>, j: nat, v: Value)
    requires i < |kids| && j < |kids|
  {
    if kids[j].t == Literal then v == BoolVal(j == i)
    else if SameSort(kids[i], kids[j]) then own == [v]
    else if kids[j].t == ParamString then v == StrVal("")
    else v == AddrVal(NoAddr)
  }

  /** args has one value for each option with an argument of its own, in their order. */
  ghost predicate ChoicePasses(kids: seq<Node>, i: nat, own: seq<Value>, args: seq<Value>)
    requires i < |kids|
  {
    && |args| == Openers(kids, |kids|)
    && forall j :: 0 <= j < |kids| && Opens(kids, j) ==>
         Openers(kids, j) < |args| && Holds(kids, i, own, j, args[Openers(kids, j)])
  }

  /** The Go type of what an option passes. */
  function SortType(t: NodeType): Ty
    requires t != Choice
  {
    if t == Literal then TBool else if t == ParamString then TString else TAddr
  }

  /** An option that adds a type to the types pre of the parameters before the choice. */
  predicate Adds(pre: seq<Ty>, kids: seq<Node>, j: nat)
    requires j < |kids|
  {
    Opens(kids, j) && (kids[j].t == Literal || SortType(kids[j].t) !in pre)
  }

  lemma LastOption(pre: seq<Ty>, kids: seq<Node>, k: nat)
    requires AtomsOnly(kids) && k < |kids|
    ensures kids[k].t != Choice
    ensures var ts := AddChoiceTypes(pre, kids[..k]);
      AddChoiceTypes(pre, kids[..k + 1]) == if Adds(pre, kids, k) then ts + [SortType(kids[k].t)] else ts
  {
    assert kids[k] in kids;
    assert kids[..k + 1][..k] == kids[..k] && kids[..k + 1][k] == kids[k];
    var t := SortType(kids[k].t);
    ChoiceTypesMembers(pre, kids[..k], t);
    if t != TBool {
      EarlierSort(kids, k);
    }
  }

  lemma EarlierSort(kids: seq<Node>, k: nat)
    requires AtomsOnly(kids) && k < |kids| && kids[k].t != Choice && kids[k].t != Literal
    ensures (exists n :: n in kids[..k] && ParamType(n.t, true) == Some(SortType(kids[k].t))) <==> !Opens(kids, k)
  {
    var t := SortType(kids[k].t);
    forall l | 0 <= l < k ensures SameSort(kids[l], kids[k]) <==> ParamType(kids[l].t, true) == Some(t) {
      assert kids[l] in kids;
    }
    if !Opens(kids, k) {
      var l :| 0 <= l < k && SameSort(kids[l], kids[k]);
      assert kids[l] in kids[..k];
    }
  }

  /** The types that an explicit choice adds first are those of its options with an argument
      of their own, one for each. */
  lemma {:induction false} ChoiceTypesAre(kids: seq<Node>, k: nat)
    requires AtomsOnly(kids) && k <= |kids|
    ensures var ts := AddChoiceTypes([], kids[..k]);
      && |ts| == Openers(kids, k)
      && forall j :: 0 <= j < k && Opens(kids, j) ==>
           Openers(kids, j) < |ts| && ts[Openers(kids, j)] == SortType(kids[j].t)
  {
    hide Opens, SortType;
    if k > 0 {
      ChoiceTypesAre(kids, k - 1);
      LastOption([], kids, k - 1);
    }
  }

  lemma {:induction false} OpenersOrdered(kids: seq<Node>, j: nat, k: nat)
    requires j < k <= |kids|
    ensures Openers(kids, j) + (if Opens(kids, j) then 1 else 0) <= Openers(kids, k)
  {
    hide Opens;
    if j < k - 1 {
      OpenersOrdered(kids, j, k - 1);
    }
  }

  /** Every argument is that of some option. */
  lemma {:induction false} OpenerOf(kids: seq<Node>, k: nat, a: nat) returns (j: nat)
    requires k <= |kids| && a < Openers(kids, k)
    ensures j < k && Opens(kids, j) && Openers(kids, j) == a
  {
    hide Opens;
    if a < Openers(kids, k - 1) {
      j := OpenerOf(kids, k - 1, a);
    } else {
      j := k - 1;
    }
  }

  /** Where an option with an argument of its own finds it. */
  lemma OpenerSlot(kids: seq<Node>, j: nat)
    requires AtomsOnly(kids) && j < |kids| && Opens(kids, j)
    ensures Slot(kids, j) == Openers(kids, j)
  {
    hide AtomsOnly, AddChoiceTypes, Openers;
    assert kids[j].t != Choice;
    assert kids[..|kids|] == kids;
    ChoiceTypesAre(kids, j);
    if kids[j].t != Literal {
      ChoiceTypesAre(kids, |kids|);
      TypesPrefix(kids, j, |kids|);
      LastOption([], kids, j);
      var ts, all, t := AddChoiceTypes([], kids[..j]), AddChoiceTypes([], kids), SortType(kids[j].t);
      NotBefore(kids, j);
      assert all[|ts|] == t && forall l :: 0 <= l < |ts| ==> all[l] == ts[l] && all[l] != t;
    }
  }

  lemma NotBefore(kids: seq<Node>, j: nat)
    requires AtomsOnly(kids) && j < |kids| && Opens(kids, j) && kids[j].t != Literal
    ensures SortType(kids[j].t) !in AddChoiceTypes([], kids[..j])
  {
    var t := SortType(kids[j].t);
    ChoiceTypesMembers([], kids[..j], t);
    forall k | k in kids[..j] ensures ParamType(k.t, true) != Some(t) {
      var l :| 0 <= l < j && kids[l] == k;
      assert !SameSort(kids[l], kids[j]);
    }
  }

  /** The arguments that the matcher gives the matches of an explicit choice are these. */
  lemma ChoicePassesIff(kids: seq<Node>, i: nat, own: seq<Value>, args: seq<Value>)
    requires AtomsOnly(kids) && i < |kids| && OwnArgs(kids[i], own)
    ensures args == ArgsUpTo(kids, i, own, |kids|) <==> ChoicePasses(kids, i, own, args)
  {
    hide ArgsUpTo, Slot, Openers, Opens, AtomsOnly, Holds, AddChoiceTypes;
    var all := ArgsUpTo(kids, i, own, |kids|);
    MatcherPasses(kids, i, own);
    if ChoicePasses(kids, i, own, args) {
      forall a | 0 <= a < |args| ensures args[a] == all[a] {
        var j := OpenerOf(kids, |kids|, a);
        HoldsOne(kids, i, own, j, args[a], all[a]);
      }
    }
  }

  lemma HoldsOne(kids: seq<Node>, i: nat, own: seq<Value>, j: nat, v: Value, w: Value)
    requires i < |kids| && j < |kids| && Holds(kids, i, own, j, v) && Holds(kids, i, own, j, w)
    ensures v == w
  {
  }

  lemma MatcherPasses(kids: seq<Node>, i: nat, own: seq<Value>)
    requires AtomsOnly(kids) && i < |kids| && OwnArgs(kids[i], own)
    ensures ChoicePasses(kids, i, own, ArgsUpTo(kids, i, own, |kids|))
  {
    hide ArgsUpTo, Openers, Opens, Holds, Slot, OwnArgs, SlotValue;
    var args := ArgsUpTo(kids, i, own, |kids|);
    ChoiceArgsExact(kids, i, own);
    ChoiceTypesAre(kids, |kids|);
    assert kids[..|kids|] == kids;
    forall j | 0 <= j < |kids| && Opens(kids, j)
      ensures Openers(kids, j) < |args| && Holds(kids, i, own, j, args[Openers(kids, j)])
    {
      OpenerSlot(kids, j);
      SlotHolds(kids, i, own, j);
    }
  }

  lemma SlotHolds(kids: seq<Node>, i: nat, own: seq<Value>, j: nat)
    requires AtomsOnly(kids) && i < |kids| && OwnArgs(kids[i], own) && j < |kids|
    ensures Holds(kids, i, own, j, SlotValue(kids, i, own, j))
  {
    assert kids[j] in kids && kids[i] in kids;
  }

  // ---------------------------------------------------------------- a call

  /** A line that leads from n along the match m calls the handler with the values call. */
  ghost predicate IsCall(n: Node, tokens: seq<string>, v6: V6Parser, m: Match, call: seq<Value>)
    decreases |tokens|, 1
  {
    tokens != [] && exists k: nat, own :: Step(n, k, own, tokens, v6, m, call)
  }

  /** The first token is accepted by alternative k, which takes own from it; its arguments
      come first, and the arguments of the remaining tokens follow. */
  ghost predicate Step(n: Node, k: nat, own: seq<Value>, tokens: seq<string>, v6: V6Parser, m: Match, call: seq<Value>)
    requires tokens != []
    decreases |tokens|, 0
  {
    && k < |Alts(n)| && m.node == Alts(n)[k] && m.input == tokens[0]
    && Takes(m.node, tokens[0], v6, own)
    && (if n.t == Choice && n.explicitChoice
        then ChoicePasses(n.children, k, own, m.args) else m.args == own)
    && m.args <= call
    && match m.next
       case None => |tokens| == 1 && call == m.args && m.isComplete == m.node.handler.Some?
       case Some(m') =>
         && |tokens| > 1 && m.isComplete == m'.isComplete && |m.node.children| > 0
         && IsCall(m.node.children[0], tokens[1..], v6, m', call[|m.args|..])
  }

  /** The arguments of a match that come from its first token are those of a step. */
  lemma FirstPasses(n: Node, k: nat, token: string, v6: V6Parser, m: Match, own: seq<Value>)
    requires WellFormed(n) && k < |Alts(n)| && Takes(Alts(n)[k], token, v6, own)
    ensures n.t == Choice && n.explicitChoice ==> k < |n.children|
    ensures m == FixArgs(n, k, m.(args := own)) <==>
      if n.t == Choice && n.explicitChoice then ChoicePasses(n.children, k, own, m.args) else m.args == own
  {
    hide ArgsUpTo, ChoicePasses, Takes, WellFormed, OwnArgs;
    AtomTakes(Alts(n)[k], token, v6, own);
    AtomOwnArgs(Alts(n)[k], token, v6);
    if n.t == Choice && n.explicitChoice {
      ChoiceAtoms(n);
      ChoicePassesIff(n.children, k, own, m.args);
    }
  }

  lemma FirstStep(n: Node, tokens: seq<string>, v6: V6Parser, m: Match, call: seq<Value>)
    returns (k: nat, own: seq<Value>)
    requires tokens != [] && IsCall(n, tokens, v6, m, call)
    ensures Step(n, k, own, tokens, v6, m, call)
  {
    k, own :| Step(n, k, own, tokens, v6, m, call);
  }

  /** The matcher finds exactly the matches, and they pass exactly the arguments, that are
      described token by token. */
  lemma {:induction false} CallIff(n: Node, tokens: seq<string>, v6: V6Parser, m: Match, call: seq<Value>)
    requires WellFormed(n) && tokens != []
    ensures IsCall(n, tokens, v6, m, call) <==> m in MatchNodes(n, tokens, v6) && call == ChainArgs(m)
    decreases |tokens|, 1
  {
    hide Step, MatchNodes, ComesFrom, WellFormed;
    if IsCall(n, tokens, v6, m, call) {
      var k, own := FirstStep(n, tokens, v6, m, call);
      StepMatches(n, k, own, tokens, v6, m, call);
    }
    if m in MatchNodes(n, tokens, v6) && call == ChainArgs(m) {
      var k, m0 := NodeOrigin(n, tokens, v6, m);
      MatchSteps(n, k, m0, tokens, v6, m);
      assert Step(n, k, m0.args, tokens, v6, m, call);
    }
  }

  lemma {:induction false} StepMatches(n: Node, k: nat, own: seq<Value>, tokens: seq<string>, v6: V6Parser, m: Match,
        call: seq<Value>)
    requires WellFormed(n) && tokens != [] && Step(n, k, own, tokens, v6, m, call)
    ensures m in MatchNodes(n, tokens, v6) && call == ChainArgs(m)
    decreases |tokens|, 0
  {
    hide MatchNodes, Takes, IsCall, ChoicePasses, FixArgs, WellFormed, ChainArgs;
    var a, m0 := Alts(n)[k], m.(args := own);
    AtomTakes(a, tokens[0], v6, own);
    FirstPasses(n, k, tokens[0], v6, m, own);
    hide AtomArgs;
    if m.next.Some? {
      var c, m' := a.children[0], m.next.value;
      ChildWellFormed(n, k);
      CallIff(c, tokens[1..], v6, m', call[|m.args|..]);
      MatchAbove(a, c, tokens, v6, m');
    } else {
      LastAlone(a, tokens, v6, m0);
    }
    ArgsOf(m, call);
    InNodes(n, k, tokens, v6, m0);
  }

  lemma LastAlone(a: Node, tokens: seq<string>, v6: V6Parser, m0: Match)
    requires |tokens| == 1 && AtomArgs(a, tokens[0], v6) == Some(m0.args)
    requires m0 == Match(a, None, a.handler.Some?, tokens[0], m0.args)
    ensures m0 in MatchAtom(a, tokens, v6)
  {
    assert MatchAtom(a, tokens, v6)[0] == m0;
  }

  lemma ArgsOf(m: Match, call: seq<Value>)
    requires m.args <= call
    requires match m.next case None => call == m.args case Some(m') => call[|m.args|..] == ChainArgs(m')
    ensures call == ChainArgs(m)
  {
    assert call == call[..|m.args|] + call[|m.args|..];
  }

  lemma InNodes(n: Node, k: nat, tokens: seq<string>, v6: V6Parser, m0: Match)
    requires tokens != [] && k < |Alts(n)| && m0 in MatchAtom(Alts(n)[k], tokens, v6)
    ensures FixArgs(n, k, m0) in MatchNodes(n, tokens, v6)
  {
    hide MatchAlts, MatchAtom, FixArgs, Alts;
    InMatchAlts(n, k, |Alts(n)|, tokens, v6, m0);
  }

  lemma ChildWellFormed(n: Node, k: nat)
    requires WellFormed(n) && k < |Alts(n)| && Alts(n)[k].children != []
    ensures WellFormed(Alts(n)[k].children[0])
  {
    AltsWellFormed(n);
    assert WellFormedAtom(Alts(n)[k]);
  }

  lemma {:induction false} MatchSteps(n: Node, k: nat, m0: Match, tokens: seq<string>, v6: V6Parser, m: Match)
    requires WellFormed(n) && tokens != [] && ComesFrom(n, k, m0, tokens, v6, m)
    ensures Step(n, k, m0.args, tokens, v6, m, ChainArgs(m))
    decreases |tokens|, 0
  {
    hide MatchNodes, Takes, IsCall, ChoicePasses, WellFormed, ArgsUpTo;
    var a, own := Alts(n)[k], m0.args;
    AtomTakes(a, tokens[0], v6, own);
    FirstPasses(n, k, tokens[0], v6, m, own);
    if |tokens| > 1 {
      var c := a.children[0];
      var ms := MatchNodes(c, tokens[1..], v6);
      var i :| 0 <= i < |ms| && m0.next == Some(ms[i]);
      ChildWellFormed(n, k);
      CallIff(c, tokens[1..], v6, ms[i], ChainArgs(ms[i]));
      assert ChainArgs(m)[|m.args|..] == ChainArgs(ms[i]);
    }
  }
}
