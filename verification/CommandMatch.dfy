// Matching a line of tokens against a command tree: which matches there are, in which
// order, when they are complete, and which arguments they pass to the handler.

module CommandMatch {
  import opened Prelude
  import opened Addresses
  import opened CommandTree
  import opened CommandMerge
  import opened CommandTypes

  datatype Value = StrVal(s: string) | AddrVal(a: Addr) | BoolVal(b: bool)

  function TypeOf(v: Value): Ty {
    match v
    case StrVal(_) => TString
    case AddrVal(_) => TAddr
    case BoolVal(_) => TBool
  }

  function TypesOf(vs: seq<Value>): (ts: seq<Ty>)
    ensures |ts| == |vs| && forall i :: 0 <= i < |vs| ==> ts[i] == TypeOf(vs[i])
  {
    seq(|vs|, i requires 0 <= i < |vs| => TypeOf(vs[i]))
  }

  /** The zero value of a parameter type. */
  function Zero(t: Ty): Value {
    match t
    case TAddr => AddrVal(NoAddr)
    case TBool => BoolVal(false)
    case _ => StrVal("")
  }

  datatype Match = Match(node: Node, next: Option<Match>, isComplete: bool, input: string, args: seq<Value>)

  // ---------------------------------------------------------------- specification

  /** The arguments an atom takes from a token, if it accepts the token. */
  function AtomArgs(n: Node, token: string, v6: V6Parser): Option<seq<Value>> {
    match n.t
    case Literal => if HasPrefix(n.value, token) then Some([]) else None
    case ParamString => Some([StrVal(token)])
    case ParamIPv4 =>
      (match ParseIPv4(token) case None => None case Some(a) => Some([AddrVal(a)]))
    case ParamIPv6 =>
      (match v6(token) case None => None case Some(c) => Some([AddrVal(V6(c))]))
    case Choice => None
  }

  /** The index of the first value of type t, or -1. */
  function IndexOfType(vs: seq<Value>, t: Ty): (i: int)
    ensures -1 <= i < |vs|
    ensures i >= 0 ==> TypeOf(vs[i]) == t && forall j :: 0 <= j < i ==> TypeOf(vs[j]) != t
    ensures i == -1 ==> forall j :: 0 <= j < |vs| ==> TypeOf(vs[j]) != t
  {
    if vs == [] then -1
    else if TypeOf(vs[0]) == t then 0
    else var i := IndexOfType(vs[1..], t); if i == -1 then -1 else i + 1
  }

  /** The arguments of an explicit choice after its first j options, where option i matched
      with arguments own. */
  function ArgsUpTo(kids: seq<Node>, i: nat, own: seq<Value>, j: nat): seq<Value>
    requires j <= |kids|
  {
    if j == 0 then [] else AddArg(ArgsUpTo(kids, i, own, j - 1), kids[j - 1], j - 1 == i, own)
  }

  /** args with what option kid contributes; hit tells whether kid is what matched. */
  function AddArg(args: seq<Value>, kid: Node, hit: bool, own: seq<Value>): seq<Value> {
    if kid.t.Literal? then args + [BoolVal(hit)]
    else match ParamType(kid.t, true)
      case None => args
      case Some(t) =>
        var at := IndexOfType(args, t);
        if !hit then
          if at == -1 then args + [Zero(t)] else args
        else if own == [] then args
        else if at == -1 then args + [own[0]]
        else args[at := own[0]]
  }

  function FixArgs(n: Node, i: nat, m: Match): Match {
    if n.t.Choice? && n.explicitChoice
    then m.(args := ArgsUpTo(n.children, i, m.args, |n.children|))
    else m
  }

  /** matchTokens: every way to accept the tokens along a path of the tree. */
  function MatchNodes(n: Node, tokens: seq<string>, v6: V6Parser): seq<Match>
    requires tokens != []
    decreases |tokens|, 2, 0
  {
    MatchAlts(n, |Alts(n)|, tokens, v6)
  }

  /** The matches of the first k alternatives. */
  function MatchAlts(n: Node, k: nat, tokens: seq<string>, v6: V6Parser): seq<Match>
    requires tokens != [] && k <= |Alts(n)|
    decreases |tokens|, 1, k
  {
    if k == 0 then []
    else
      var ms := MatchAtom(Alts(n)[k - 1], tokens, v6);
      MatchAlts(n, k - 1, tokens, v6) + seq(|ms|, i requires 0 <= i < |ms| => FixArgs(n, k - 1, ms[i]))
  }

  function MatchAtom(a: Node, tokens: seq<string>, v6: V6Parser): seq<Match>
    requires tokens != []
    decreases |tokens|, 0, 0
  {
    match AtomArgs(a, tokens[0], v6)
    case None => []
    case Some(args) =>
      if |tokens| == 1 then [Match(a, None, a.handler.Some?, tokens[0], args)]
      else match Next(a)
        case None => []
        case Some(c) =>
          var ms := MatchNodes(c, tokens[1..], v6);
          seq(|ms|, i requires 0 <= i < |ms| => Match(a, Some(ms[i]), ms[i].isComplete, tokens[0], args))
  }

  // ---------------------------------------------------------------- views of a match

  function ChainIds(m: Match): (p: seq<string>)
    ensures p != []
  {
    [Id(m.node)] + (match m.next case None => [] case Some(m') => ChainIds(m'))
  }

  function Last(m: Match): Match {
    match m.next case None => m case Some(m') => Last(m')
  }

  function ChainArgs(m: Match): seq<Value> {
    m.args + (match m.next case None => [] case Some(m') => ChainArgs(m'))
  }

  /** What id an atom must have to accept a token. */
  predicate AcceptsId(id: string, token: string, v6: V6Parser) {
    if id == "param:string" then true
    else if id == "param:ipv4" then IsIPv4(token)
    else if id == "param:ipv6" then v6(token).Some?
    else "literal:" <= id && HasPrefix(id[|"literal:"|..], token)
  }

  predicate AcceptsPath(p: seq<string>, tokens: seq<string>, v6: V6Parser) {
    |p| == |tokens| && forall i :: 0 <= i < |p| ==> AcceptsId(p[i], tokens[i], v6)
  }

  lemma AtomAccepts(n: Node, token: string, v6: V6Parser)
    requires !n.t.Choice?
    ensures AtomArgs(n, token, v6).Some? <==> AcceptsId(Id(n), token, v6)
  {
    if n.t.Literal? {
      assert Id(n)[0] == 'l' && "param:string"[0] == 'p' && "param:ipv4"[0] == 'p' && "param:ipv6"[0] == 'p';
      assert Id(n)[|"literal:"|..] == n.value;
    } else {
      SameId(n, n.(t := ParamString));
      SameId(n, n.(t := ParamIPv4));
      SameId(n, n.(t := ParamIPv6));
    }
  }

  // ---------------------------------------------------------------- exactness

  /** p precedes q in the tree: at the first place where they differ, p takes the earlier
      alternative. */
  predicate Before(n: Node, p: seq<string>, q: seq<string>)
    decreases |p|
  {
    && p != [] && q != []
    && var i, j := FindIndex(Alts(n), p[0]), FindIndex(Alts(n), q[0]);
       && i >= 0 && j >= 0
       && (i < j || (i == j && match Next(Alts(n)[i])
                              case None => false
                              case Some(c) => Before(c, p[1..], q[1..])))
  }

  /** A match is what it should be: a path of the tree that accepts the tokens, complete
      when a handler is set at its end. */
  ghost predicate GoodMatch(n: Node, tokens: seq<string>, v6: V6Parser, m: Match) {
    && AcceptsPath(ChainIds(m), tokens, v6)
    && AtPath(n, ChainIds(m)) == Some(AttrsOf(Last(m).node))
    && (m.isComplete <==> Last(m).node.handler.Some?)
  }

  lemma {:induction false} MatchAltsGood(n: Node, k: nat, tokens: seq<string>, v6: V6Parser)
    requires WellFormed(n) && tokens != [] && k <= |Alts(n)|
    ensures forall m :: m in MatchAlts(n, k, tokens, v6) ==> GoodMatch(n, tokens, v6, m)
    ensures forall m :: m in MatchAlts(n, k, tokens, v6) ==> 0 <= FindIndex(Alts(n), ChainIds(m)[0]) < k
    decreases |tokens|, 1, k + 1
  {
    hide GoodMatch, MatchAtom, FixArgs, WellFormedAtom, WellFormed, FindIndex;
    if k > 0 {
      MatchAltsGood(n, k - 1, tokens, v6);
      AltGood(n, k - 1, tokens, v6);
      var ms := MatchAtom(Alts(n)[k - 1], tokens, v6);
      var fixed := seq(|ms|, i requires 0 <= i < |ms| => FixArgs(n, k - 1, ms[i]));
      assert MatchAlts(n, k, tokens, v6) == MatchAlts(n, k - 1, tokens, v6) + fixed;
      forall m | m in fixed ensures GoodMatch(n, tokens, v6, m) && FindIndex(Alts(n), ChainIds(m)[0]) == k - 1 {
        var i :| 0 <= i < |fixed| && fixed[i] == m;
        assert ms[i] in ms && m == FixArgs(n, k - 1, ms[i]);
      }
    }
  }

  lemma {:induction false} AltGood(n: Node, k: nat, tokens: seq<string>, v6: V6Parser)
    requires WellFormed(n) && tokens != [] && k < |Alts(n)|
    ensures forall m :: m in MatchAtom(Alts(n)[k], tokens, v6) ==>
      && GoodMatch(n, tokens, v6, FixArgs(n, k, m))
      && FindIndex(Alts(n), ChainIds(FixArgs(n, k, m))[0]) == k
    decreases |tokens|, 1, 0
  {
    hide GoodMatch, MatchAtom, FixArgs, WellFormed;
    AltsWellFormed(n);
    MatchAtomGood(Alts(n)[k], tokens, v6);
    forall m | m in MatchAtom(Alts(n)[k], tokens, v6)
      ensures GoodMatch(n, tokens, v6, FixArgs(n, k, m))
      ensures FindIndex(Alts(n), ChainIds(FixArgs(n, k, m))[0]) == k
    {
      GoodInParent(n, k, tokens, v6, m);
    }
  }

  /** A match of an alternative is a match of the node that offers it. */
  lemma GoodInParent(n: Node, k: nat, tokens: seq<string>, v6: V6Parser, m0: Match)
    requires WellFormed(n) && k < |Alts(n)| && m0.node == Alts(n)[k] && GoodMatch(Alts(n)[k], tokens, v6, m0)
    ensures GoodMatch(n, tokens, v6, FixArgs(n, k, m0))
    ensures FindIndex(Alts(n), ChainIds(FixArgs(n, k, m0))[0]) == k
  {
    var a, m := Alts(n)[k], FixArgs(n, k, m0);
    AltsWellFormed(n);
    LookupIndex(Alts(n), k);
    assert ChainIds(m) == ChainIds(m0) && AttrsOf(Last(m).node) == AttrsOf(Last(m0).node);
    assert Alts(a) == [a];
    assert AtPath(a, ChainIds(m)) == AtPath(n, ChainIds(m));
  }

  lemma {:induction false} MatchAtomGood(a: Node, tokens: seq<string>, v6: V6Parser)
    requires WellFormedAtom(a) && tokens != []
    ensures forall m :: m in MatchAtom(a, tokens, v6) ==> GoodMatch(a, tokens, v6, m) && m.node == a
    decreases |tokens|, 0, 0
  {
    hide AcceptsId, HasPath, WellFormed;
    AtomAccepts(a, tokens[0], v6);
    if |tokens| > 1 && Next(a).Some? {
      var c := Next(a).value;
      MatchAltsGood(c, |Alts(c)|, tokens[1..], v6);
      forall m | m in MatchAtom(a, tokens, v6) ensures GoodMatch(a, tokens, v6, m) && m.node == a {
        var m' := m.next.value;
        assert m' in MatchNodes(c, tokens[1..], v6);
        assert GoodMatch(c, tokens[1..], v6, m');
        assert ChainIds(m)[1..] == ChainIds(m');
        assert forall i :: 1 <= i < |tokens| ==>
          tokens[i] == tokens[1..][i - 1] && ChainIds(m)[i] == ChainIds(m')[i - 1];
      }
    }
  }

  /** Every accepting path of the tree has a match. */
  lemma {:induction false} MatchComplete(n: Node, tokens: seq<string>, v6: V6Parser, p: seq<string>) returns (m: Match)
    requires WellFormed(n) && tokens != []
    requires HasPath(n, p) && AcceptsPath(p, tokens, v6)
    ensures m in MatchNodes(n, tokens, v6) && ChainIds(m) == p
    decreases |tokens|, 1
  {
    var k := FindIndex(Alts(n), p[0]);
    LookupWellFormed(n, p[0]);
    var m0 := MatchAtomComplete(Alts(n)[k], tokens, v6, p);
    m := FixArgs(n, k, m0);
    InMatchAlts(n, k, |Alts(n)|, tokens, v6, m0);
  }

  lemma {:induction false} MatchAtomComplete(a: Node, tokens: seq<string>, v6: V6Parser, p: seq<string>)
    returns (m: Match)
    requires WellFormedAtom(a) && tokens != [] && AcceptsPath(p, tokens, v6) && Id(a) == p[0]
    requires |p| > 1 ==> Next(a).Some? && WellFormed(Next(a).value) && HasPath(Next(a).value, p[1..])
    ensures m in MatchAtom(a, tokens, v6) && ChainIds(m) == p
    decreases |tokens|, 0
  {
    hide HasPath, AcceptsId, WellFormed, AtPath, MatchNodes;
    AtomAccepts(a, tokens[0], v6);
    var args := AtomArgs(a, tokens[0], v6).value;
    if |tokens| == 1 {
      m := Match(a, None, a.handler.Some?, tokens[0], args);
      assert p == [p[0]];
    } else {
      var c := Next(a).value;
      assert AcceptsPath(p[1..], tokens[1..], v6);
      var m' := MatchComplete(c, tokens[1..], v6, p[1..]);
      m := Match(a, Some(m'), m'.isComplete, tokens[0], args);
      MatchAbove(a, c, tokens, v6, m');
      assert p == [p[0]] + p[1..];
    }
  }

  lemma MatchAbove(a: Node, c: Node, tokens: seq<string>, v6: V6Parser, m: Match)
    requires |tokens| > 1 && AtomArgs(a, tokens[0], v6).Some? && Next(a) == Some(c)
    requires m in MatchNodes(c, tokens[1..], v6)
    ensures Match(a, Some(m), m.isComplete, tokens[0], AtomArgs(a, tokens[0], v6).value) in MatchAtom(a, tokens, v6)
  {
    hide MatchNodes;
    var ms := MatchNodes(c, tokens[1..], v6);
    var i :| 0 <= i < |ms| && ms[i] == m;
    assert MatchAtom(a, tokens, v6)[i].next == Some(m);
  }

  lemma {:induction false} InMatchAlts(n: Node, i: nat, k: nat, tokens: seq<string>, v6: V6Parser, m: Match)
    requires tokens != [] && i < k <= |Alts(n)| && m in MatchAtom(Alts(n)[i], tokens, v6)
    ensures FixArgs(n, i, m) in MatchAlts(n, k, tokens, v6)
  {
    var ms := MatchAtom(Alts(n)[k - 1], tokens, v6);
    if i < k - 1 {
      InMatchAlts(n, i, k - 1, tokens, v6, m);
    } else {
      var j :| 0 <= j < |ms| && ms[j] == m;
      var fixed := seq(|ms|, i requires 0 <= i < |ms| => FixArgs(n, k - 1, ms[i]));
      assert fixed[j] == FixArgs(n, i, m);
    }
  }

  /** The matcher is exact: an id path is the path of a match exactly when it is in the tree
      and accepts the tokens one by one. */
  lemma MatchExact(n: Node, tokens: seq<string>, v6: V6Parser, p: seq<string>)
    requires WellFormed(n) && tokens != []
    ensures (exists m :: m in MatchNodes(n, tokens, v6) && ChainIds(m) == p) <==>
      HasPath(n, p) && AcceptsPath(p, tokens, v6)
    ensures forall m :: m in MatchNodes(n, tokens, v6) ==>
      AtPath(n, ChainIds(m)).Some? && (m.isComplete <==> AtPath(n, ChainIds(m)).value.handler.Some?)
  {
    MatchAltsGood(n, |Alts(n)|, tokens, v6);
    if HasPath(n, p) && AcceptsPath(p, tokens, v6) {
      var m := MatchComplete(n, tokens, v6, p);
    }
  }

  ghost predicate Ordered(n: Node, ms: seq<Match>) {
    forall i, j :: 0 <= i < j < |ms| ==> Before(n, ChainIds(ms[i]), ChainIds(ms[j]))
  }

  lemma OrderedAppend(n: Node, k: nat, first: seq<Match>, rest: seq<Match>)
    requires Ordered(n, first) && Ordered(n, rest)
    requires forall m :: m in first ==> 0 <= FindIndex(Alts(n), ChainIds(m)[0]) < k
    requires forall m :: m in rest ==> FindIndex(Alts(n), ChainIds(m)[0]) == k
    ensures Ordered(n, first + rest)
  {
    var ms := first + rest;
    forall i, j | 0 <= i < j < |ms| ensures Before(n, ChainIds(ms[i]), ChainIds(ms[j])) {
      if j < |first| {
        assert ms[i] == first[i] && ms[j] == first[j];
      } else if |first| <= i {
        assert ms[i] == rest[i - |first|] && ms[j] == rest[j - |first|];
      } else {
        assert ms[i] in first && ms[j] in rest;
      }
    }
  }

  /** Matches of one alternative are ordered alike seen from the alternative and its parent. */
  lemma OrderedInParent(n: Node, k: nat, ms: seq<Match>)
    requires WellFormed(n) && k < |Alts(n)| && Ordered(Alts(n)[k], ms)
    requires forall m :: m in ms ==> m.node == Alts(n)[k]
    ensures var rs := seq(|ms|, i requires 0 <= i < |ms| => FixArgs(n, k, ms[i]));
      Ordered(n, rs) && forall r :: r in rs ==> FindIndex(Alts(n), ChainIds(r)[0]) == k
  {
    var a := Alts(n)[k];
    AltsWellFormed(n);
    LookupIndex(Alts(n), k);
    var rs := seq(|ms|, i requires 0 <= i < |ms| => FixArgs(n, k, ms[i]));
    assert a in Alts(n) && WellFormedAtom(a);
    assert Alts(a) == [a];
    forall i | 0 <= i < |ms| ensures ChainIds(rs[i]) == ChainIds(ms[i]) && ChainIds(ms[i])[0] == Id(a) {
      assert ms[i] in ms;
    }
    forall i, j | 0 <= i < j < |rs| ensures Before(n, ChainIds(rs[i]), ChainIds(rs[j])) {
      assert Before(a, ChainIds(ms[i]), ChainIds(ms[j]));
    }
  }

  lemma NoneOrdered(n: Node)
    ensures Ordered(n, [])
  {
  }

  /** Matches come in the order of the tree. */
  lemma {:induction false} MatchAltsOrdered(n: Node, k: nat, tokens: seq<string>, v6: V6Parser)
    requires WellFormed(n) && tokens != [] && k <= |Alts(n)|
    ensures Ordered(n, MatchAlts(n, k, tokens, v6))
    decreases |tokens|, 1, k
  {
    hide WellFormedAtom, Ordered, GoodMatch, MatchAtom, FixArgs, ChainIds, WellFormed, FindIndex;
    if k == 0 {
      NoneOrdered(n);
    } else {
      var a := Alts(n)[k - 1];
      AltsWellFormed(n);
      MatchAltsOrdered(n, k - 1, tokens, v6);
      MatchAltsGood(n, k - 1, tokens, v6);
      MatchAtomOrdered(a, tokens, v6);
      MatchAtomGood(a, tokens, v6);
      var ms := MatchAtom(a, tokens, v6);
      OrderedInParent(n, k - 1, ms);
      OrderedAppend(n, k - 1, MatchAlts(n, k - 1, tokens, v6),
        seq(|ms|, i requires 0 <= i < |ms| => FixArgs(n, k - 1, ms[i])));
    }
  }

  lemma {:induction false} MatchAtomOrdered(a: Node, tokens: seq<string>, v6: V6Parser)
    requires WellFormedAtom(a) && tokens != []
    ensures Ordered(a, MatchAtom(a, tokens, v6))
    decreases |tokens|, 0, 0
  {
    if AtomArgs(a, tokens[0], v6).Some? && |tokens| > 1 && Next(a).Some? {
      var c := Next(a).value;
      MatchAltsOrdered(c, |Alts(c)|, tokens[1..], v6);
      var ms, rs := MatchNodes(c, tokens[1..], v6), MatchAtom(a, tokens, v6);
      forall i, j | 0 <= i < j < |rs| ensures Before(a, ChainIds(rs[i]), ChainIds(rs[j])) {
        assert ChainIds(rs[i]) == [Id(a)] + ChainIds(ms[i]) && ChainIds(rs[j]) == [Id(a)] + ChainIds(ms[j]);
        BeforeBelow(a, ChainIds(ms[i]), ChainIds(ms[j]));
      }
    }
  }

  lemma BeforeBelow(a: Node, p: seq<string>, q: seq<string>)
    requires WellFormedAtom(a) && Next(a).Some? && Before(Next(a).value, p, q)
    ensures Before(a, [Id(a)] + p, [Id(a)] + q)
  {
    var p', q' := [Id(a)] + p, [Id(a)] + q;
    assert p'[1..] == p && q'[1..] == q && p'[0] == q'[0] == Id(a);
    assert Alts(a) == [a];
    assert FindIndex(Alts(a), Id(a)) == 0;
  }

  /** Order is strict, so no path is matched twice. */
  lemma {:induction false} NotBeforeItself(n: Node, p: seq<string>)
    ensures !Before(n, p, p)
    decreases |p|
  {
    if Before(n, p, p) {
      NotBeforeItself(Next(Alts(n)[FindIndex(Alts(n), p[0])]).value, p[1..]);
    }
  }

  lemma MatchOrder(n: Node, tokens: seq<string>, v6: V6Parser)
    requires WellFormed(n) && tokens != []
    ensures Ordered(n, MatchNodes(n, tokens, v6))
    ensures var ms := MatchNodes(n, tokens, v6);
      forall i, j :: 0 <= i < j < |ms| ==> ChainIds(ms[i]) != ChainIds(ms[j])
  {
    MatchAltsOrdered(n, |Alts(n)|, tokens, v6);
    var ms := MatchNodes(n, tokens, v6);
    forall i, j | 0 <= i < j < |ms| ensures ChainIds(ms[i]) != ChainIds(ms[j]) {
      NotBeforeItself(n, ChainIds(ms[i]));
      assert Before(n, ChainIds(ms[i]), ChainIds(ms[j]));
    }
  }
}
