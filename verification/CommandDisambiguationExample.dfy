// A tree on which Match picks the wrong command: "<ipv6|ip> <route|routes>" and the line
// "ip route", which spells out "ip route" but is taken for "ipv6 route".

module CommandDisambiguationExample {
  import opened Prelude
  import opened Addresses
  import opened CommandTree
  import opened CommandTypes
  import opened CommandMatch
  import opened CommandDisambiguation
  import opened CommandGrammar
  import opened CommandDeclaration
  import opened CommandRegistry

  function Word(w: string, handler: Option<Handler>, children: seq<Node>, types: seq<Ty>): Node {
    Node(Literal, w, "", handler, None, children, types, false)
  }

  const SHOW := Handler([TWriter, TBool, TBool, TBool, TBool], true, 0)
  const OUTER := [TWriter, TBool, TBool]
  const ROUTE := Word("route", Some(SHOW), [], SHOW.params)
  const ROUTES := Word("routes", Some(SHOW), [], SHOW.params)
  const TABLES := ChoiceOf([ROUTE, ROUTES])
  const IPV6 := Word("ipv6", None, [TABLES], OUTER)
  const IP := Word("ip", None, [TABLES], OUTER)
  const TREE := ChoiceOf([IPV6, IP])
  const LINE := ["ip", "route"]

  /** "<ipv6|ip> <route|routes>". */
  const COMMAND := Entry([Options("ipv6", "ip"), Options("route", "routes")], "", SHOW)

  function Options(a: string, b: string): Node {
    ChoiceOf([Atom(Literal, a), Atom(Literal, b)])
  }

  function Second(w: Node, first: bool): Match {
    Match(w, None, true, "route", [BoolVal(first), BoolVal(!first)])
  }

  function First(w: Node, first: bool, next: Match): Match {
    Match(w, Some(next), true, "ip", [BoolVal(first), BoolVal(!first)])
  }

  function AllMatches(): seq<Match> {
    [ First(IPV6, true, Second(ROUTE, true)), First(IPV6, true, Second(ROUTES, false)),
      First(IP, false, Second(ROUTE, true)), First(IP, false, Second(ROUTES, false)) ]
  }

  lemma TwoOptions(a: Node, b: Node)
    requires a.t.Literal? && b.t.Literal?
    ensures ArgsUpTo([a, b], 0, [], 2) == [BoolVal(true), BoolVal(false)]
    ensures ArgsUpTo([a, b], 1, [], 2) == [BoolVal(false), BoolVal(true)]
  {
    assert ArgsUpTo([a, b], 0, [], 1) == [BoolVal(true)];
    assert ArgsUpTo([a, b], 1, [], 1) == [BoolVal(false)];
  }

  lemma SecondMatches(v6: V6Parser)
    ensures MatchNodes(TABLES, ["route"], v6) == [Second(ROUTE, true), Second(ROUTES, false)]
  {
    assert "routes"[..5] == "route";
    TwoOptions(ROUTE, ROUTES);
    var a, b := MatchAtom(ROUTE, ["route"], v6), MatchAtom(ROUTES, ["route"], v6);
    assert a == [Match(ROUTE, None, true, "route", [])];
    assert b == [Match(ROUTES, None, true, "route", [])];
    assert MatchAlts(TABLES, 0, ["route"], v6) == [];
    assert MatchAlts(TABLES, 1, ["route"], v6) == [FixArgs(TABLES, 0, a[0])];
    assert MatchAlts(TABLES, 2, ["route"], v6) == [FixArgs(TABLES, 0, a[0]), FixArgs(TABLES, 1, b[0])];
  }

  /** The matches of an explicit choice of two options, each with two matches. */
  lemma TwoByTwo(n: Node, tokens: seq<string>, v6: V6Parser, a: seq<Match>, b: seq<Match>)
    requires n.t.Choice? && |n.children| == 2 && tokens != []
    requires |a| == 2 && MatchAtom(n.children[0], tokens, v6) == a
    requires |b| == 2 && MatchAtom(n.children[1], tokens, v6) == b
    ensures MatchNodes(n, tokens, v6) == [FixArgs(n, 0, a[0]), FixArgs(n, 0, a[1]), FixArgs(n, 1, b[0]), FixArgs(n, 1,
      b[1])]
  {
    hide MatchAtom, FixArgs;
    assert MatchAlts(n, 0, tokens, v6) == [];
    assert MatchAlts(n, 1, tokens, v6) == [FixArgs(n, 0, a[0]), FixArgs(n, 0, a[1])];
  }

  lemma FirstMatches(v6: V6Parser)
    ensures MatchNodes(TREE, LINE, v6) == AllMatches()
  {
    assert "ipv6"[..2] == "ip";
    assert LINE[1..] == ["route"];
    SecondMatches(v6);
    TwoOptions(IPV6, IP);
    var x, y := Second(ROUTE, true), Second(ROUTES, false);
    var a, b := MatchAtom(IPV6, LINE, v6), MatchAtom(IP, LINE, v6);
    assert a == [Match(IPV6, Some(x), true, "ip", []), Match(IPV6, Some(y), true, "ip", [])];
    assert b == [Match(IP, Some(x), true, "ip", []), Match(IP, Some(y), true, "ip", [])];
    TwoByTwo(TREE, LINE, v6, a, b);
  }

  lemma FirstRound(matches: seq<Match>)
    requires matches == AllMatches()
    ensures Kept(matches, Identity(4), 0, "ip") == [2, 3]
  {
    var s := Identity(4);
    assert ExactPositions(matches, s, 0, "ip", 0) == [];
    assert |"ipv6"| != |"ip"|;
    assert ExactPositions(matches, s, 0, "ip", 1) == [];
    assert ExactPositions(matches, s, 0, "ip", 2) == [];
    assert ExactPositions(matches, s, 0, "ip", 3) == [2];
    assert ExactPositions(matches, s, 0, "ip", 4) == [2, 3];
  }

  lemma SecondRound(matches: seq<Match>)
    requires matches == AllMatches()
    ensures Kept(matches, [2, 3], 1, "route") == [0]
  {
    var s: seq<nat> := [2, 3];
    assert |"routes"| != |"route"|;
    assert Suffix(matches[2], 1) == Some(Second(ROUTE, true)) && Suffix(matches[3], 1) == Some(Second(ROUTES, false));
    assert ExactPositions(matches, s, 1, "route", 0) == [];
    assert ExactPositions(matches, s, 1, "route", 1) == [0];
    assert ExactPositions(matches, s, 1, "route", 2) == [0];
  }

  lemma WrongRounds(matches: seq<Match>)
    requires matches == AllMatches()
    ensures LastRound(matches, LINE, 0, Identity(4)) == Round([2, 3], [0])
  {
    FirstRound(matches);
    SecondRound(matches);
    var s := Compose(Identity(4), [2, 3]);
    assert s == [2, 3];
    assert LastRound(matches, LINE, 1, s) == Round(s, [0]);
  }

  lemma WrongPick(matches: seq<Match>, tokens: seq<string>, all: seq<nat>, r: Round)
    requires |matches| == 4 && tokens != [] && all == Identity(4)
    requires LastRound(matches, tokens, 0, all) == r && r.before == [2, 3] && r.kept == [0]
    ensures Disambiguated(matches, tokens) == [matches[0]]
    ensures Greedy(matches, tokens) == [matches[2]]
    ensures !Aligned(matches, tokens)
  {
    hide LastRound, GreedyFrom;
    GreedyIsLastRound(matches, tokens, 0, all);
    var final := Compose(r.before, r.kept);
    assert final == [2];
    assert GreedyFrom(matches, tokens, 0, all) == final;
    assert 0 !in r.before;
  }

  // ---------------------------------------------------------------- the tree is declared

  lemma TwoFlags(pre: seq<Ty>, a: Node, b: Node)
    requires a.t.Literal? && b.t.Literal?
    ensures AddChoiceTypes(pre, [a, b]) == pre + [TBool, TBool]
  {
    assert [a, b][..1] == [a] && [a][..0] == [];
    assert AddChoiceTypes(pre, [a]) == pre + [TBool];
  }

  lemma OptionsTyped(a: string, b: string, pre: seq<Ty>, below: seq<Node>)
    ensures var e := ChoiceOf([Atom(Literal, a).(children := below), Atom(Literal, b).(children := below)]);
      var ts := pre + [TBool, TBool];
      WithTypes(e, pre) == ChoiceOf([Word(a, None, AllWithTypes(below, ts), ts),
        Word(b, None, AllWithTypes(below, ts), ts)])
  {
    var x, y := Atom(Literal, a).(children := below), Atom(Literal, b).(children := below);
    TwoFlags(pre, x, y);
    var e, ts := ChoiceOf([x, y]), pre + [TBool, TBool];
    assert e.children[0] == x && e.children[1] == y;
    assert WithTypes(e, pre).children == [OptionWithTypes(x, ts), OptionWithTypes(y, ts)];
  }

  lemma OptionsLinked(a: Node, b: Node, next: Node)
    requires a.children == [] && b.children == []
    ensures Link(ChoiceOf([a, b]), next) == ChoiceOf([a.(children := [next]), b.(children := [next])])
  {
    assert ChoiceOf([a, b]).children[0] == a && ChoiceOf([a, b]).children[1] == b;
    assert [] + [next] == [next];
  }

  lemma TreeIsDeclared()
    ensures Registrable(COMMAND) && TreeOf(COMMAND) == TREE
  {
    hide WithTypes, Registrable, AddChoiceTypes;
    CommandRegistrable();
    var es, x, y := COMMAND.es, Options("ipv6", "ip"), Options("route", "routes");
    var ts, all := OUTER, SHOW.params;
    assert es[1..] == [y] && Chain(es[1..]) == y;
    var linked := ChoiceOf([Atom(Literal, "ipv6").(children := [y]), Atom(Literal, "ip").(children := [y])]);
    assert Chain(es) == Link(x, y);
    OptionsLinked(Atom(Literal, "ipv6"), Atom(Literal, "ip"), y);
    OptionsTyped("ipv6", "ip", [TWriter], [y]);
    OptionsTyped("route", "routes", ts, []);
    assert [TWriter] + [TBool, TBool] == ts && ts + [TBool, TBool] == all;
    var inner := ChoiceOf([Word("route", None, [], all), Word("routes", None, [], all)]);
    assert y == ChoiceOf([Atom(Literal, "route").(children := []), Atom(Literal, "routes").(children := [])]);
    assert AllWithTypes([], all) == [];
    assert WithTypes(y, ts) == inner;
    assert AllWithTypes([y], ts) == [inner];
    assert TypedChain(es, [TWriter]) == ChoiceOf([Word("ipv6", None, [inner], ts), Word("ip", None, [inner], ts)]);
    LeavesSet(inner, Word("route", None, [], all), Word("routes", None, [], all));
    assert SetLeaves(inner, SHOW, "") == TABLES;
    LeavesSet(TypedChain(es, [TWriter]), Word("ipv6", None, [inner], ts), Word("ip", None, [inner], ts));
  }

  lemma LeavesSet(n: Node, a: Node, b: Node)
    requires n == ChoiceOf([a, b])
    ensures SetLeaves(n, SHOW, "") == ChoiceOf([SetLeaves(a, SHOW, ""), SetLeaves(b, SHOW, "")])
  {
    assert n.children[0] == a && n.children[1] == b;
  }

  lemma CommandRegistrable()
    ensures Registrable(COMMAND)
  {
    var es, x, y := COMMAND.es, Options("ipv6", "ip"), Options("route", "routes");
    assert |"routes"| != |"route"| && |"ipv6"| != |"ip"|;
    SameId(x.children[0], x.children[1]);
    SameId(y.children[0], y.children[1]);
    assert es[1..] == [y] && es[1..][1..] == [];
    TwoFlags([TWriter], x.children[0], x.children[1]);
    TwoFlags(OUTER, y.children[0], y.children[1]);
    assert TypesAfter(x, [TWriter]) == OUTER;
    assert FinalTypes([y], OUTER) == TypesAfter(y, OUTER) == SHOW.params;
  }

  /** Match returns "ipv6 route" for the line "ip route"; the greedy filter "ip route". */
  lemma WrongCommand(v6: V6Parser, n: Node, line: seq<string>, matches: seq<Match>)
    requires Registrable(COMMAND) && n == TreeOf(COMMAND) && line == LINE && matches == MatchNodes(n, line, v6)
    ensures |matches| == 4 && Disambiguated(matches, line) == [matches[0]] && Greedy(matches, line) == [matches[2]]
    ensures !Aligned(matches, line)
    ensures ChainIds(matches[0]) == LiteralPath(["ipv6", "route"])
    ensures ChainIds(matches[2]) == LiteralPath(line)
  {
    hide MatchNodes, LastRound, GreedyFrom, Disambiguated, Greedy, Aligned, ChainIds, LiteralPath, TreeOf, Registrable;
    TreeIsDeclared();
    FirstMatches(v6);
    assert matches == AllMatches();
    WrongRounds(matches);
    WrongPick(matches, line, Identity(4), Round([2, 3], [0]));
    ChainOf(IPV6, true, ROUTE, "ipv6");
    ChainOf(IP, false, ROUTE, "ip");
  }

  lemma ChainOf(w: Node, first: bool, r: Node, word: string)
    requires w.t.Literal? && w.value == word && r == ROUTE
    ensures ChainIds(First(w, first, Second(r, true))) == LiteralPath([word, "route"])
  {
    assert ChainIds(First(w, first, Second(r, true))) == [Id(w), Id(r)];
    assert LiteralPath([word, "route"]) == ["literal:" + word, "literal:" + "route"];
  }
}
