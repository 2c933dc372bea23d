// Calling a handler: the arguments collected along a match against the handler's type.

module CommandCalls {
  import opened Prelude
  import opened Addresses
  import opened CommandTree
  import opened CommandMerge
  import opened CommandTypes
  import opened CommandMatch

  // ---------------------------------------------------------------- arguments of a choice

  ghost predicate AtomsOnly(kids: seq<Node>) {
    forall k :: k in kids ==> !k.t.Choice?
  }

  /** own is what option i passes: nothing for a literal, otherwise one value of its type. */
  ghost predicate OwnArgs(kid: Node, own: seq<Value>) {
    if kid.t.Literal? then own == [] else |own| == 1 && ParamType(kid.t, true) == Some(TypeOf(own[0]))
  }

  /** The arguments of a choice have the types of the choice, whichever option matched. */
  lemma {:induction false} ArgsTypes(kids: seq<Node>, i: nat, own: seq<Value>, j: nat)
    requires AtomsOnly(kids) && j <= |kids| && i < |kids| && OwnArgs(kids[i], own)
    ensures TypesOf(ArgsUpTo(kids, i, own, j)) == AddChoiceTypes([], kids[..j])
  {
    hide AddArg, OwnArgs, ParamType, IndexOfType;
    if j > 0 {
      ArgsTypes(kids, i, own, j - 1);
      assert kids[..j][..j - 1] == kids[..j - 1];
      assert kids[j - 1] in kids;
      AddArgTypes(ArgsUpTo(kids, i, own, j - 1), kids[j - 1], j - 1 == i, own);
    } else {
      assert kids[..0] == [];
    }
  }

  /** One option adds to the arguments what it adds to the types. */
  lemma AddArgTypes(args: seq<Value>, kid: Node, hit: bool, own: seq<Value>)
    requires !kid.t.Choice? && (hit ==> OwnArgs(kid, own))
    ensures TypesOf(AddArg(args, kid, hit, own)) == AddChoiceTypes(TypesOf(args), [kid])
  {
    var ts := TypesOf(args);
    assert AddChoiceTypes(ts, []) == ts;
    assert [kid][..0] == [];
    if !kid.t.Literal? {
      var t := ParamType(kid.t, true).value;
      var at := IndexOfType(args, t);
      assert at == -1 <==> t !in ts by {
        if at != -1 {
          assert ts[at] == t;
        }
      }
      forall v | TypeOf(v) == t ensures TypesOf(args + [v]) == ts + [t] {
      }
    }
  }

  /** Where option j finds its value among the arguments: a literal has a flag of its own,
      parameters of one type share one slot. */
  function Slot(kids: seq<Node>, j: nat): int
    requires j < |kids|
  {
    if kids[j].t.Literal? then |AddChoiceTypes([], kids[..j])|
    else match ParamType(kids[j].t, true)
      case None => -1
      case Some(t) => IndexOfTy(AddChoiceTypes([], kids), t)
  }

  function IndexOfTy(ts: seq<Ty>, t: Ty): (i: int)
    ensures -1 <= i < |ts|
    ensures i >= 0 ==> ts[i] == t && forall j :: 0 <= j < i ==> ts[j] != t
    ensures i == -1 ==> t !in ts
  {
    if ts == [] then -1
    else if ts[0] == t then 0
    else var i := IndexOfTy(ts[1..], t); if i == -1 then -1 else i + 1
  }

  /** What the slot of option j must hold when option i matched with arguments own. */
  function SlotValue(kids: seq<Node>, i: nat, own: seq<Value>, j: nat): Value
    requires i < |kids| && j < |kids| && AtomsOnly(kids) && OwnArgs(kids[i], own)
  {
    assert kids[j] in kids && kids[i] in kids;
    if kids[j].t.Literal? then BoolVal(j == i)
    else if ParamType(kids[j].t, true) == ParamType(kids[i].t, true) then own[0]
    else Zero(ParamType(kids[j].t, true).value)
  }

  lemma {:induction false} LiteralSlot(kids: seq<Node>, i: nat, own: seq<Value>, l: nat, j: nat)
    requires AtomsOnly(kids) && i < |kids| && OwnArgs(kids[i], own)
    requires l < j <= |kids| && kids[l].t.Literal?
    ensures var at := |ArgsUpTo(kids, i, own, l)|;
      at < |ArgsUpTo(kids, i, own, j)| && ArgsUpTo(kids, i, own, j)[at] == BoolVal(l == i)
  {
    hide AddArg, OwnArgs;
    assert kids[j - 1] in kids;
    if l < j - 1 {
      LiteralSlot(kids, i, own, l, j - 1);
      FlagKept(ArgsUpTo(kids, i, own, j - 1), kids[j - 1], j - 1 == i, own, |ArgsUpTo(kids, i, own, l)|);
    } else {
      FlagAdded(ArgsUpTo(kids, i, own, l), kids[l], l == i, own);
    }
  }

  lemma FlagAdded(args: seq<Value>, kid: Node, hit: bool, own: seq<Value>)
    requires kid.t.Literal?
    ensures AddArg(args, kid, hit, own) == args + [BoolVal(hit)]
  {
  }

  /** Options after a literal leave its flag alone. */
  lemma FlagKept(args: seq<Value>, kid: Node, hit: bool, own: seq<Value>, at: nat)
    requires !kid.t.Choice? && (hit ==> OwnArgs(kid, own)) && at < |args| && args[at].BoolVal?
    ensures at < |AddArg(args, kid, hit, own)| && AddArg(args, kid, hit, own)[at] == args[at]
  {
  }

  /** One option's contribution leaves the slot of type t alone unless it has that type. */
  lemma AddArgSlot(args: seq<Value>, kid: Node, hit: bool, own: seq<Value>, t: Ty)
    requires !kid.t.Choice? && t != TBool && (hit ==> OwnArgs(kid, own))
    ensures var at, args' := IndexOfType(args, t), AddArg(args, kid, hit, own);
      var at' := IndexOfType(args', t);
      && (at == -1 ==> (at' == -1 <==> ParamType(kid.t, true) != Some(t)))
      && (at != -1 ==> at' == at)
      && (at' != -1 ==>
            (args'[at'] == if hit && ParamType(kid.t, true) == Some(t) then own[0]
                           else if at == -1 then Zero(t) else args[at]))
  {
    hide AddArg, OwnArgs, IndexOfType, Zero;
    if ParamType(kid.t, true) == Some(t) {
      OwnTypeSlot(args, kid, hit, own, t);
    } else {
      OtherTypeSlot(args, kid, hit, own, t);
    }
  }

  lemma OwnTypeSlot(args: seq<Value>, kid: Node, hit: bool, own: seq<Value>, t: Ty)
    requires !kid.t.Choice? && t != TBool && (hit ==> OwnArgs(kid, own)) && ParamType(kid.t, true) == Some(t)
    ensures var at, args' := IndexOfType(args, t), AddArg(args, kid, hit, own);
      var at' := IndexOfType(args', t);
      && at' == (if at == -1 then |args| else at)
      && args'[at'] == if hit then own[0] else if at == -1 then Zero(t) else args[at]
  {
    var at, args' := IndexOfType(args, t), AddArg(args, kid, hit, own);
    KeepsTypes(args, kid, hit, own);
    assert TypeOf(args'[if at == -1 then |args| else at]) == t;
  }

  lemma OtherTypeSlot(args: seq<Value>, kid: Node, hit: bool, own: seq<Value>, t: Ty)
    requires !kid.t.Choice? && t != TBool && (hit ==> OwnArgs(kid, own)) && ParamType(kid.t, true) != Some(t)
    ensures var at, args' := IndexOfType(args, t), AddArg(args, kid, hit, own);
      IndexOfType(args', t) == at && (at != -1 ==> args'[at] == args[at])
  {
    OthersAdded(args, kid, hit, own, t);
    AddedSlot(args, AddArg(args, kid, hit, own), t);
  }

  /** An option of another type adds values of that type, or replaces one. */
  lemma OthersAdded(args: seq<Value>, kid: Node, hit: bool, own: seq<Value>, t: Ty)
    requires !kid.t.Choice? && t != TBool && (hit ==> OwnArgs(kid, own)) && ParamType(kid.t, true) != Some(t)
    ensures OthersOnly(args, AddArg(args, kid, hit, own), t)
  {
  }

  ghost predicate OthersOnly(args: seq<Value>, args': seq<Value>, t: Ty) {
    && |args'| >= |args|
    && (forall l :: 0 <= l < |args| ==> args'[l] == args[l] || (TypeOf(args[l]) != t && TypeOf(args'[l]) != t))
    && (forall l :: |args| <= l < |args'| ==> TypeOf(args'[l]) != t)
  }

  lemma AddedSlot(args: seq<Value>, args': seq<Value>, t: Ty)
    requires OthersOnly(args, args', t)
    ensures var at := IndexOfType(args, t); IndexOfType(args', t) == at && (at != -1 ==> args'[at] == args[at])
  {
    var at, at' := IndexOfType(args, t), IndexOfType(args', t);
    if at != -1 {
      assert TypeOf(args'[at]) == t;
    }
    if at' != -1 {
      assert at' < |args| && TypeOf(args[at']) == t;
    }
  }

  /** What is added comes last, and what is replaced keeps its type. */
  lemma KeepsTypes(args: seq<Value>, kid: Node, hit: bool, own: seq<Value>)
    requires !kid.t.Choice? && (hit ==> OwnArgs(kid, own))
    ensures var args' := AddArg(args, kid, hit, own);
      |args'| >= |args| && forall l :: 0 <= l < |args| ==> TypeOf(args'[l]) == TypeOf(args[l])
  {
  }

  lemma {:induction false} ParamSlot(kids: seq<Node>, i: nat, own: seq<Value>, t: Ty, j: nat)
    requires AtomsOnly(kids) && i < |kids| && OwnArgs(kids[i], own) && j <= |kids| && t != TBool
    ensures var args := ArgsUpTo(kids, i, own, j);
      var at := IndexOfType(args, t);
      && (at == -1 ==> forall l :: 0 <= l < j ==> ParamType(kids[l].t, true) != Some(t))
      && (at != -1 ==> args[at] == if i < j && ParamType(kids[i].t, true) == Some(t) then own[0] else Zero(t))
  {
    if j > 0 {
      ParamSlot(kids, i, own, t, j - 1);
      assert kids[j - 1] in kids && kids[i] in kids;
      AddArgSlot(ArgsUpTo(kids, i, own, j - 1), kids[j - 1], j - 1 == i, own, t);
    }
  }

  ghost predicate HasSlot(kids: seq<Node>, a: int) {
    exists j :: 0 <= j < |kids| && Slot(kids, j) == a
  }

  lemma SlotExact(kids: seq<Node>, i: nat, own: seq<Value>, j: nat)
    requires AtomsOnly(kids) && i < |kids| && OwnArgs(kids[i], own) && j < |kids|
    ensures var args := ArgsUpTo(kids, i, own, |kids|);
      0 <= Slot(kids, j) < |args| && args[Slot(kids, j)] == SlotValue(kids, i, own, j)
  {
    var args := ArgsUpTo(kids, i, own, |kids|);
    assert kids[j] in kids && kids[i] in kids;
    if kids[j].t.Literal? {
      ArgsTypes(kids, i, own, j);
      LiteralSlot(kids, i, own, j, |kids|);
    } else {
      var t := ParamType(kids[j].t, true).value;
      ArgsTypes(kids, i, own, |kids|);
      assert kids[..|kids|] == kids;
      ParamSlot(kids, i, own, t, |kids|);
      assert IndexOfTy(TypesOf(args), t) == IndexOfType(args, t);
    }
  }

  /** The arguments of an explicit choice: each literal's flag tells whether it is the one
      that matched; the slot of a parameter type holds the matched parameter's value if the
      matched option has that type, and the zero value otherwise; and there is nothing else. */
  lemma ChoiceArgsExact(kids: seq<Node>, i: nat, own: seq<Value>)
    requires AtomsOnly(kids) && i < |kids| && OwnArgs(kids[i], own)
    ensures var args := ArgsUpTo(kids, i, own, |kids|);
      && TypesOf(args) == AddChoiceTypes([], kids)
      && (forall j :: 0 <= j < |kids| ==>
        0 <= Slot(kids, j) < |args| && args[Slot(kids, j)] == SlotValue(kids, i, own, j))
      && (forall a :: 0 <= a < |args| ==> HasSlot(kids, a))
  {
    ArgsTypes(kids, i, own, |kids|);
    assert kids[..|kids|] == kids;
    forall j | 0 <= j < |kids|
      ensures var args := ArgsUpTo(kids, i, own, |kids|);
        0 <= Slot(kids, j) < |args| && args[Slot(kids, j)] == SlotValue(kids, i, own, j)
    {
      SlotExact(kids, i, own, j);
    }
    forall a | 0 <= a < |ArgsUpTo(kids, i, own, |kids|)| ensures HasSlot(kids, a) {
      var j := SlotOwner(kids, |kids|, a);
    }
  }

  lemma {:induction false} SlotOwner(kids: seq<Node>, k: nat, a: nat) returns (j: nat)
    requires AtomsOnly(kids) && k <= |kids| && a < |AddChoiceTypes([], kids[..k])|
    ensures j < k && Slot(kids, j) == a
  {
    assert k > 0;
    assert kids[..k][..k - 1] == kids[..k - 1];
    assert kids[k - 1] in kids;
    if a < |AddChoiceTypes([], kids[..k - 1])| {
      j := SlotOwner(kids, k - 1, a);
    } else {
      j := k - 1;
      if !kids[j].t.Literal? {
        var t := ParamType(kids[j].t, true).value;
        TypesPrefix(kids, k, |kids|);
        assert kids[..|kids|] == kids;
        var ts, all := AddChoiceTypes([], kids[..k]), AddChoiceTypes([], kids);
        assert ts[a] == t && t !in ts[..a];
        assert forall l :: 0 <= l <= a ==> ts[l] == all[l];
        assert forall l :: 0 <= l < a ==> ts[l] == ts[..a][l];
      }
    }
  }

  lemma {:induction false} TypesPrefix(kids: seq<Node>, k: nat, l: nat)
    requires k <= l <= |kids|
    ensures AddChoiceTypes([], kids[..k]) <= AddChoiceTypes([], kids[..l])
  {
    if k < l {
      TypesPrefix(kids, k, l - 1);
      assert kids[..l][..l - 1] == kids[..l - 1];
    }
  }

  // ---------------------------------------------------------------- well-typed calls

  /** ts are the parameter types of the node at the end of m; before is what precedes m. */
  ghost predicate Fits(before: seq<Ty>, m: Match, isFresh: bool) {
    var ts := Last(m).node.paramTypes;
    && (isFresh ==> ts == before + TypesOf(ChainArgs(m)))
    && (!isFresh ==> |ts| < |before| + |ChainArgs(m)|)
  }

  function RestArgs(m: Match): seq<Value> {
    match m.next case None => [] case Some(m') => ChainArgs(m')
  }

  /** ts are the types up to the first node of m, rest what follows. */
  ghost predicate RestFits(ts: seq<Ty>, m: Match, isFresh: bool) {
    var all := Last(m).node.paramTypes;
    && (isFresh ==> all == ts + TypesOf(RestArgs(m)))
    && |all| <= |ts| + |RestArgs(m)|
    && (!isFresh ==> |all| < |ts| + |RestArgs(m)|)
  }

  /** The types of every complete call, along a path of which isFresh tells whether all its
      explicit choices are fresh. */
  lemma {:induction false} CallsFit(n: Node, pre: seq<Ty>, tokens: seq<string>, v6: V6Parser, m: Match)
    requires WellFormed(n) && Typed(n, pre) && tokens != [] && m in MatchNodes(n, tokens, v6)
    ensures Fits(pre, m, FreshAlong(n, pre, ChainIds(m)))
    decreases |tokens|, 1
  {
    hide MatchNodes, Typed, FreshAlong, FreshChoice, WellFormed, TypesAt, FixArgs, Last, ChainIds, ChainArgs, RestArgs,
      Alts, Next, HeadOf, MatchAtom, AtomArgs, WellFormedAtom, TypedAtom, ComesFrom, FindIndex, Lookup;
    var k, m0 := NodeOrigin(n, tokens, v6, m);
    CallOrigin(n, pre, tokens, v6, m, k, m0);
    var a := Alts(n)[k];
    var ts := TypesAt(n, a, pre);
    AtomFits(a, ts, tokens, v6, m0);
    FirstArgs(n, k, pre, tokens[0], v6, m0);
    FreshAlongStep(n, pre, a, ChainIds(m));
    assert TypesOf(ChainArgs(m)) == TypesOf(m.args) + TypesOf(RestArgs(m));
    Combine(pre, ts, TypesOf(m.args), TypesOf(RestArgs(m)), Last(m).node.paramTypes,
      HeadOf(n).Explicit? ==> FreshChoice(pre, n.children),
      Next(a).Some? ==> FreshAlong(Next(a).value, ts, ChainIds(m)[1..]));
  }

  lemma NodeOrigin(n: Node, tokens: seq<string>, v6: V6Parser, m: Match) returns (k: nat, m0: Match)
    requires tokens != [] && m in MatchNodes(n, tokens, v6)
    ensures ComesFrom(n, k, m0, tokens, v6, m)
  {
    k, m0 := MatchOrigin(n, |Alts(n)|, tokens, v6, m);
  }

  /** m comes from the match m0 of alternative k. */
  ghost predicate ComesFrom(n: Node, k: nat, m0: Match, tokens: seq<string>, v6: V6Parser, m: Match)
    requires tokens != []
  {
    k < |Alts(n)| && m0 in MatchAtom(Alts(n)[k], tokens, v6) && m == FixArgs(n, k, m0)
  }

  lemma CallOrigin(n: Node, pre: seq<Ty>, tokens: seq<string>, v6: V6Parser, m: Match, k: nat, m0: Match)
    requires WellFormed(n) && Typed(n, pre) && tokens != [] && ComesFrom(n, k, m0, tokens, v6, m)
    ensures k < |Alts(n)| && m0 in MatchAtom(Alts(n)[k], tokens, v6) && m == FixArgs(n, k, m0)
    ensures WellFormedAtom(Alts(n)[k]) && TypedAtom(Alts(n)[k], TypesAt(n, Alts(n)[k], pre))
    ensures Lookup(Alts(n), ChainIds(m)[0]) == Some(Alts(n)[k])
    ensures Last(m).node == Last(m0).node && ChainIds(m) == ChainIds(m0) && RestArgs(m) == RestArgs(m0)
    ensures ChainArgs(m) == m.args + RestArgs(m)
  {
    var a := Alts(n)[k];
    AltsWellFormed(n);
    LookupIndex(Alts(n), k);
    TypedAlt(n, pre, Id(a));
    LookupWellFormed(n, Id(a));
    MatchAtomGood(a, tokens, v6);
  }

  lemma Combine(pre: seq<Ty>, ts: seq<Ty>, a: seq<Ty>, r: seq<Ty>, all: seq<Ty>, f1: bool, f2: bool)
    requires (f1 ==> ts == pre + a) && |ts| <= |pre| + |a| && (!f1 ==> |ts| < |pre| + |a|)
    requires (f2 ==> all == ts + r) && |all| <= |ts| + |r| && (!f2 ==> |all| < |ts| + |r|)
    ensures f1 && f2 ==> all == pre + (a + r)
    ensures !(f1 && f2) ==> |all| < |pre| + |a + r|
  {
  }

  /** The arguments of the first element against the types it adds. */
  lemma FirstArgs(n: Node, k: nat, pre: seq<Ty>, token: string, v6: V6Parser, m0: Match)
    requires WellFormed(n) && k < |Alts(n)| && AtomArgs(Alts(n)[k], token, v6) == Some(m0.args)
    ensures var ts, args := TypesAt(n, Alts(n)[k], pre), FixArgs(n, k, m0).args;
      var isFresh := HeadOf(n).Explicit? ==> FreshChoice(pre, n.children);
      && (isFresh ==> ts == pre + TypesOf(args))
      && |ts| <= |pre| + |args|
      && (!isFresh ==> |ts| < |pre| + |args|)
  {
    var a, own := Alts(n)[k], m0.args;
    AtomOwnArgs(a, token, v6);
    if HeadOf(n).Explicit? {
      ChoiceAtoms(n);
      ChoiceFirstArgs(n.children, k, own, pre);
    }
  }

  lemma AtomOwnArgs(a: Node, token: string, v6: V6Parser)
    requires AtomArgs(a, token, v6).Some?
    ensures !a.t.Choice? && OwnArgs(a, AtomArgs(a, token, v6).value)
    ensures TypesOf(AtomArgs(a, token, v6).value) == Own(a)
  {
  }

  lemma ChoiceFirstArgs(kids: seq<Node>, k: nat, own: seq<Value>, pre: seq<Ty>)
    requires AtomsOnly(kids) && k < |kids| && OwnArgs(kids[k], own)
    ensures var ts, args := AddChoiceTypes(pre, kids), ArgsUpTo(kids, k, own, |kids|);
      && (FreshChoice(pre, kids) ==> ts == pre + TypesOf(args))
      && |ts| <= |pre| + |args|
      && (!FreshChoice(pre, kids) ==> |ts| < |pre| + |args|)
  {
    ArgsTypes(kids, k, own, |kids|);
    assert kids[..|kids|] == kids;
    ChoiceTypesFresh(pre, kids);
  }

  lemma ChoiceAtoms(n: Node)
    requires WellFormed(n) && n.t.Choice?
    ensures AtomsOnly(n.children)
  {
    assert WellFormedAlts(n.children);
  }

  lemma FreshAlongStep(n: Node, pre: seq<Ty>, a: Node, p: seq<string>)
    requires p != [] && Lookup(Alts(n), p[0]) == Some(a)
    ensures FreshAlong(n, pre, p) <==>
      && (HeadOf(n).Explicit? ==> FreshChoice(pre, n.children))
      && (Next(a).Some? ==> FreshAlong(Next(a).value, TypesAt(n, a, pre), p[1..]))
  {
  }

  lemma {:induction false} AtomFits(a: Node, ts: seq<Ty>, tokens: seq<string>, v6: V6Parser, m: Match)
    requires WellFormedAtom(a) && TypedAtom(a, ts) && tokens != [] && m in MatchAtom(a, tokens, v6)
    ensures m.node == a && AtomArgs(a, tokens[0], v6) == Some(m.args)
    ensures RestFits(ts, m, Next(a).Some? ==> FreshAlong(Next(a).value, ts, ChainIds(m)[1..]))
    decreases |tokens|, 0
  {
    var ms := MatchAtom(a, tokens, v6);
    var i :| 0 <= i < |ms| && ms[i] == m;
    if |tokens| == 1 {
      assert ChainIds(m)[1..] == [];
    } else {
      var c := Next(a).value;
      var m' := MatchNodes(c, tokens[1..], v6)[i];
      assert m.next == Some(m');
      CallsFit(c, ts, tokens[1..], v6, m');
      assert ChainIds(m)[1..] == ChainIds(m');
    }
  }

  /** Every match comes from a match of one of the alternatives. */
  lemma {:induction false} MatchOrigin(n: Node, k: nat, tokens: seq<string>, v6: V6Parser, m: Match)
    returns (i: nat, m0: Match)
    requires tokens != [] && k <= |Alts(n)| && m in MatchAlts(n, k, tokens, v6)
    ensures i < k && ComesFrom(n, i, m0, tokens, v6, m)
  {
    if m in MatchAlts(n, k - 1, tokens, v6) {
      i, m0 := MatchOrigin(n, k - 1, tokens, v6, m);
    } else {
      var ms := MatchAtom(Alts(n)[k - 1], tokens, v6);
      var rest := seq(|ms|, i requires 0 <= i < |ms| => FixArgs(n, k - 1, ms[i]));
      var j :| 0 <= j < |rest| && rest[j] == m;
      i, m0 := k - 1, ms[j];
    }
  }

  /** A complete match calls its handler with the types the handler takes exactly when no
      explicit choice on its path repeats the type of an earlier parameter. */
  lemma CallsWellTypedIff(n: Node, tokens: seq<string>, v6: V6Parser, m: Match)
    requires WellFormed(n) && Typed(n, [TWriter]) && tokens != [] && m in MatchNodes(n, tokens, v6)
    requires m.isComplete
    ensures Last(m).node.handler.Some?
    ensures Last(m).node.handler.value.params == [TWriter] + TypesOf(ChainArgs(m)) <==>
      FreshAlong(n, [TWriter], ChainIds(m))
  {
    MatchAltsGood(n, |Alts(n)|, tokens, v6);
    CallsFit(n, [TWriter], tokens, v6, m);
    LastTyped(n, [TWriter], tokens, v6, m);
  }

  /** In a tree whose choices are all fresh every complete match is a well-typed call. */
  lemma FreshCallsWellTyped(n: Node, tokens: seq<string>, v6: V6Parser)
    requires WellFormed(n) && Typed(n, [TWriter]) && Fresh(n, [TWriter]) && tokens != []
    ensures forall m :: m in MatchNodes(n, tokens, v6) && m.isComplete ==>
      && Last(m).node.handler.Some?
      && Last(m).node.handler.value.params == [TWriter] + TypesOf(ChainArgs(m))
  {
    forall m | m in MatchNodes(n, tokens, v6) && m.isComplete
      ensures Last(m).node.handler.Some?
      ensures Last(m).node.handler.value.params == [TWriter] + TypesOf(ChainArgs(m))
    {
      MatchAltsGood(n, |Alts(n)|, tokens, v6);
      assert HasPath(n, ChainIds(m));
      CallsWellTypedIff(n, tokens, v6, m);
    }
  }

  lemma {:induction false} LastTyped(n: Node, pre: seq<Ty>, tokens: seq<string>, v6: V6Parser, m: Match)
    requires WellFormed(n) && Typed(n, pre) && tokens != [] && m in MatchNodes(n, tokens, v6)
    ensures var l := Last(m).node; l.handler.Some? ==> l.handler.value.params == l.paramTypes
    decreases |tokens|
  {
    var k, m0 := NodeOrigin(n, tokens, v6, m);
    CallOrigin(n, pre, tokens, v6, m, k, m0);
    var a := Alts(n)[k];
    var ms := MatchAtom(a, tokens, v6);
    var i :| 0 <= i < |ms| && ms[i] == m0;
    if |tokens| > 1 {
      var c := Next(a).value;
      LastTyped(c, TypesAt(n, a, pre), tokens[1..], v6, MatchNodes(c, tokens[1..], v6)[i]);
    }
  }
}
