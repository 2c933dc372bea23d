// All commands registered with a CLI: whatever the order, each can be called, with the
// arguments its handler takes.

module CommandRegistry {
  import opened Prelude
  import opened Addresses
  import opened CommandTree
  import opened CommandMerge
  import opened CommandTypes
  import opened CommandMatch
  import opened CommandCalls
  import opened CommandGrammar
  import opened CommandDeclaration
  import opened CommandDisambiguation
  import opened Cli

  /** One call of Register whose declaration parsed to the elements es. */
  datatype Entry = Entry(es: seq<Node>, desc: string, h: Handler)

  /** The entry passes the checks Register makes before merging. */
  predicate Registrable(e: Entry) {
    && e.es != [] && AllSupported(e.es)
    && e.h.params == FinalTypes(e.es, [TWriter]) && e.h.returnsError
  }

  function TreeOf(e: Entry): Node
    requires Registrable(e)
  {
    Command(e.es, [TWriter], e.h, e.desc)
  }

  ghost predicate AllRegistrable(entries: seq<Entry>) {
    forall i :: 0 <= i < |entries| ==> Registrable(entries[i])
  }

  function Trees(entries: seq<Entry>): (ts: seq<Node>)
    requires forall i :: 0 <= i < |entries| ==> Registrable(entries[i])
    ensures |ts| == |entries| && forall i :: 0 <= i < |ts| ==> ts[i] == TreeOf(entries[i])
  {
    seq(|entries|, i requires 0 <= i < |entries| => TreeOf(entries[i]))
  }

  /** p spells out the whole declaration of e. */
  predicate FullPath(e: Entry, p: seq<string>) {
    |p| == |e.es| && forall i :: 0 <= i < |p| ==> Lookup(Alts(e.es[i]), p[i]).Some?
  }

  /** The handler of the last entry that p spells out. */
  function HandlerOf(entries: seq<Entry>, p: seq<string>): Option<Handler> {
    if entries == [] then None
    else if HandlerOf(entries[1..], p).Some? then HandlerOf(entries[1..], p)
    else if FullPath(entries[0], p) then Some(entries[0].h)
    else None
  }

  lemma {:induction false} HandlerAt(entries: seq<Entry>, p: seq<string>)
    requires AllRegistrable(entries)
    ensures (match AtPathAll(Trees(entries), p) case None => None case Some(a) => a.handler) == HandlerOf(entries, p)
    decreases |entries|
  {
    if entries != [] {
      var e := entries[0];
      HandlerAt(entries[1..], p);
      assert Trees(entries)[1..] == Trees(entries[1..]);
      CommandPaths(e.es, [TWriter], e.h, e.desc, p);
    }
  }

  /** The description of the last entry that p spells out and that has one. */
  function DescriptionOf(entries: seq<Entry>, p: seq<string>): string {
    if entries == [] then ""
    else if DescriptionOf(entries[1..], p) != "" then DescriptionOf(entries[1..], p)
    else if FullPath(entries[0], p) then entries[0].desc
    else ""
  }

  lemma {:induction false} DescriptionAt(entries: seq<Entry>, p: seq<string>)
    requires AllRegistrable(entries)
    ensures (match AtPathAll(Trees(entries), p) case None => "" case Some(a) => a.description) ==
      DescriptionOf(entries, p)
    decreases |entries|
  {
    if entries != [] {
      var e := entries[0];
      DescriptionAt(entries[1..], p);
      assert Trees(entries)[1..] == Trees(entries[1..]);
      CommandPaths(e.es, [TWriter], e.h, e.desc, p);
    }
  }

  /** What the tree of a CLI holds at each path: the handler and the description registered
      last for it. */
  lemma RegisteredAt(entries: seq<Entry>, root: Node, p: seq<string>)
    requires RootOf(entries, root)
    ensures NodeAt(root, p).Some? ==>
      && NodeAt(root, p).value.handler == HandlerOf(entries, p)
      && NodeAt(root, p).value.description == DescriptionOf(entries, p)
    ensures NodeAt(root, p).None? ==> forall e :: e in entries ==> !FullPath(e, p)
  {
    TreesGood(entries);
    MergeAllIsUnion(Trees(entries), p);
    AtPathIs(root, p);
    HandlerAt(entries, p);
    DescriptionAt(entries, p);
    if i: nat :| i < |entries| && FullPath(entries[i], p) {
      HandlerExists(entries, i, p);
    }
  }

  lemma {:induction false} MergeAllTyped(u: Node, ns: seq<Node>)
    requires WellFormed(u) && Typed(u, [TWriter]) && MergeAll(Some(u), ns).Ok?
    requires forall n :: n in ns ==> WellFormed(n) && Typed(n, [TWriter])
    ensures var r := MergeAll(Some(u), ns).value;
      r.Some? && WellFormed(r.value) && Typed(r.value, [TWriter])
    decreases |ns|
  {
    if ns != [] {
      assert ns[0] in ns;
      MergeKeepsWellFormed(u, ns[0]);
      MergeKeepsTyped(u, ns[0], [TWriter]);
      MergeAllTyped(MergeNodes(u, ns[0]).value, ns[1..]);
    }
  }

  lemma {:induction false} MergeAllFresh(u: Node, ns: seq<Node>)
    requires WellFormed(u) && Fresh(u, [TWriter]) && MergeAll(Some(u), ns).Ok?
    requires forall n :: n in ns ==> WellFormed(n) && Fresh(n, [TWriter])
    ensures var r := MergeAll(Some(u), ns).value; r.Some? && Fresh(r.value, [TWriter])
    decreases |ns|
  {
    if ns != [] {
      assert ns[0] in ns;
      MergeKeepsWellFormed(u, ns[0]);
      MergeKeepsFresh(u, ns[0], [TWriter]);
      MergeAllFresh(MergeNodes(u, ns[0]).value, ns[1..]);
    }
  }

  lemma TreesGood(entries: seq<Entry>)
    requires AllRegistrable(entries)
    ensures forall n :: n in Trees(entries) ==> WellFormed(n) && Typed(n, [TWriter])
  {
    forall i | 0 <= i < |entries| ensures WellFormed(TreeOf(entries[i])) && Typed(TreeOf(entries[i]), [TWriter]) {
      var e := entries[i];
      CommandWellFormed(e.es, [TWriter], e.h, e.desc);
      CommandTyped(e.es, [TWriter], e.h, e.desc);
    }
  }

  /** The tree of a CLI after these registrations. */
  ghost predicate RootOf(entries: seq<Entry>, root: Node) {
    AllRegistrable(entries) && entries != [] && MergeAll(None, Trees(entries)) == Ok(Some(root))
  }

  /** CLI.Register merges the tree of an entry, or fails where there is none. */
  lemma EntryOfText(command: string, es: seq<Node>, desc: string, h: Handler)
    requires ParseElements(command, 0) == Elements(es) && AllSupported(es)
    ensures SupportedText(command)
    ensures var e := Entry(es, desc, h);
      CommandOf(command, desc, h) == if Registrable(e) then Ok(TreeOf(e)) else Err
  {
  }

  /** What CLI.Register promises of the tree leads from the tree after some registrations to
      the tree after one more. */
  lemma OneMoreRegistered(entries: seq<Entry>, root: Option<Node>, e: Entry, after: Node)
    requires AllRegistrable(entries) && Registrable(e)
    requires match root case None => entries == [] case Some(u) => RootOf(entries, u)
    requires MergeAll(root, [TreeOf(e)]) == Ok(Some(after))
    ensures RootOf(entries + [e], after)
  {
    var all := entries + [e];
    assert AllRegistrable(all) by {
      forall i | 0 <= i < |all| ensures Registrable(all[i]) {
        assert i < |entries| ==> all[i] == entries[i];
      }
    }
    assert Trees(all) == Trees(entries) + [TreeOf(e)];
    MergeAllAppend(None, Trees(entries), [TreeOf(e)]);
  }

  lemma {:induction false} MergeAllAppend(root: Option<Node>, ms: seq<Node>, ns: seq<Node>)
    ensures MergeAll(root, ms + ns) == match MergeAll(root, ms) case Err => Err case Ok(r) => MergeAll(r, ns)
    decreases |ms|
  {
    if ms == [] {
      assert ms + ns == ns;
    } else {
      assert (ms + ns)[1..] == ms[1..] + ns;
      match root
      case None => MergeAllAppend(Some(ms[0]), ms[1..], ns);
      case Some(u) =>
        if MergeNodes(u, ms[0]).Ok? {
          MergeAllAppend(Some(MergeNodes(u, ms[0]).value), ms[1..], ns);
        }
    }
  }

  lemma RootGood(entries: seq<Entry>, root: Node)
    requires RootOf(entries, root)
    ensures WellFormed(root) && Typed(root, [TWriter])
  {
    var ts := Trees(entries);
    TreesGood(entries);
    MergeAllTyped(ts[0], ts[1..]);
  }

  /** After any registrations that succeed, every line that spells out a registered command
      matches it completely, and the match calls the handler registered last for it. */
  lemma RegisteredCommandsRun(entries: seq<Entry>, root: Node, i: nat, p: seq<string>, tokens: seq<string>,
        v6: V6Parser)
    returns (m: Match)
    requires RootOf(entries, root) && i < |entries| && FullPath(entries[i], p) && AcceptsPath(p, tokens, v6)
    ensures tokens != [] && m in MatchNodes(root, tokens, v6)
    ensures ChainIds(m) == p && m.isComplete
    ensures HandlerOf(entries, p).Some? && Last(m).node.handler == HandlerOf(entries, p)
  {
    RootGood(entries, root);
    TreesGood(entries);
    MergeAllIsUnion(Trees(entries), p);
    HandlerAt(entries, p);
    HandlerExists(entries, i, p);
    assert HasPath(root, p);
    m := MatchComplete(root, tokens, v6, p);
    MatchAltsGood(root, |Alts(root)|, tokens, v6);
  }

  /** A registered command of literals, typed in full, is what the greedy filter chooses, also
      among commands whose words its own are prefixes of. It is what Match returns, and so what
      CLI.RunLine runs, exactly when it is the only match or the matches are aligned. */
  lemma TypedInFullRuns(entries: seq<Entry>, root: Node, i: nat, tokens: seq<string>, v6: V6Parser) returns (m: Match)
    requires RootOf(entries, root) && i < |entries| && FullPath(entries[i], LiteralPath(tokens))
    ensures tokens != [] && m in MatchNodes(root, tokens, v6) && ChainIds(m) == LiteralPath(tokens)
    ensures Greedy(MatchNodes(root, tokens, v6), tokens) == [m]
    ensures Chosen(root, tokens, v6) == [m] <==>
      |MatchNodes(root, tokens, v6)| <= 1 || Aligned(MatchNodes(root, tokens, v6), tokens)
    ensures m.isComplete && Last(m).node.handler == HandlerOf(entries, LiteralPath(tokens))
  {
    hide MatchNodes, Greedy, Disambiguated, Aligned, RootOf, HandlerOf, ChainIds, Last;
    var p := LiteralPath(tokens);
    LiteralsAccept(tokens, v6);
    m := RegisteredCommandsRun(entries, root, i, p, tokens, v6);
    RootGood(entries, root);
    var ms := MatchNodes(root, tokens, v6);
    var k :| 0 <= k < |ms| && ms[k] == m;
    MatchesHaveDistinctPaths(root, tokens, v6);
    GreedyFindsLiterals(ms, tokens, k);
    if |ms| > 1 {
      DisambiguationIff(ms, tokens);
    } else {
      assert ms == [m];
    }
  }

  lemma {:induction false} HandlerExists(entries: seq<Entry>, i: nat, p: seq<string>)
    requires AllRegistrable(entries) && i < |entries| && FullPath(entries[i], p)
    ensures HandlerOf(entries, p).Some? && p != []
    decreases i
  {
    if i > 0 {
      HandlerExists(entries[1..], i - 1, p);
    }
  }

  /** If no declaration has a choice that repeats the type of an earlier parameter, every
      complete match of every line is a well-typed call. */
  lemma RegisteredCallsWellTyped(entries: seq<Entry>, root: Node, tokens: seq<string>, v6: V6Parser, m: Match)
    requires RootOf(entries, root) && tokens != [] && m in MatchNodes(root, tokens, v6) && m.isComplete
    requires forall e :: e in entries ==> FreshElements(e.es, [TWriter])
    ensures Last(m).node.handler.Some?
    ensures Last(m).node.handler.value.params == [TWriter] + TypesOf(ChainArgs(m))
  {
    var ts := Trees(entries);
    RootGood(entries, root);
    TreesGood(entries);
    forall i | 0 <= i < |ts| ensures Fresh(ts[i], [TWriter]) {
      var e := entries[i];
      assert e in entries;
      forall p | HasPath(ts[i], p) ensures FreshAlong(ts[i], [TWriter], p) {
        CommandFresh(e.es, [TWriter], e.h, e.desc, p);
      }
    }
    MergeAllFresh(ts[0], ts[1..]);
    FreshCallsWellTyped(root, tokens, v6);
  }

  /** "A.B.C.D <A.B.C.D|all>" is such a declaration: its handler is accepted with one address
      and one flag, but is called with two addresses and a flag. */
  lemma RepeatedTypeIsMistyped(es: seq<Node>, h: Handler, tokens: seq<string>, v6: V6Parser) returns (m: Match)
    requires es == [Atom(ParamIPv4, ""), ChoiceOf([Atom(ParamIPv4, ""), Atom(Literal, "all")])]
    requires h.params == [TWriter, TAddr, TBool] && h.returnsError
    requires |tokens| == 2 && IsIPv4(tokens[0]) && tokens[1] == "all"
    ensures Registrable(Entry(es, "", h))
    ensures m in MatchNodes(TreeOf(Entry(es, "", h)), tokens, v6) && m.isComplete
    ensures Last(m).node.handler == Some(h)
    ensures h.params != [TWriter] + TypesOf(ChainArgs(m))
  {
    var e := Entry(es, "", h);
    ExampleRegistrable(e);
    var p := [Id(es[0]), Id(es[1].children[1])];
    ExamplePath(e, p, tokens, v6);
    assert Trees([e]) == [TreeOf(e)];
    assert HandlerOf([e][1..], p) == None;
    m := RegisteredCommandsRun([e], TreeOf(e), 0, p, tokens, v6);
    RootGood([e], TreeOf(e));
    CallsWellTypedIff(TreeOf(e), tokens, v6, m);
    ExampleNotFresh(e, p);
  }

  lemma ExampleRegistrable(e: Entry)
    requires e.es == [Atom(ParamIPv4, ""), ChoiceOf([Atom(ParamIPv4, ""), Atom(Literal, "all")])]
    requires e.h.params == [TWriter, TAddr, TBool] && e.h.returnsError
    ensures Registrable(e) && RootOf([e], TreeOf(e))
  {
    var kids := e.es[1].children;
    SameId(kids[0], kids[1]);
    var pre := [TWriter] + Own(e.es[0]);
    assert pre == [TWriter, TAddr];
    assert kids[..1][..0] == [] && kids[..1] == [kids[0]];
    assert AddChoiceTypes(pre, kids[..1]) == pre;
    assert AddChoiceTypes(pre, kids) == pre + [TBool];
    assert e.es[1..][1..] == [];
    assert FinalTypes(e.es[1..], pre) == AddChoiceTypes(pre, kids);
    assert FinalTypes(e.es, [TWriter]) == FinalTypes(e.es[1..], pre);
    assert Trees([e])[1..] == [];
  }

  lemma ExamplePath(e: Entry, p: seq<string>, tokens: seq<string>, v6: V6Parser)
    requires e.es == [Atom(ParamIPv4, ""), ChoiceOf([Atom(ParamIPv4, ""), Atom(Literal, "all")])]
    requires p == [Id(e.es[0]), Id(e.es[1].children[1])]
    requires |tokens| == 2 && IsIPv4(tokens[0]) && tokens[1] == "all"
    ensures FullPath(e, p) && AcceptsPath(p, tokens, v6)
  {
    var kids := e.es[1].children;
    SameId(kids[0], kids[1]);
    LookupIndex(kids, 1);
    AtomAccepts(e.es[0], tokens[0], v6);
    AtomAccepts(kids[1], tokens[1], v6);
  }

  lemma ExampleNotFresh(e: Entry, p: seq<string>)
    requires e.es == [Atom(ParamIPv4, ""), ChoiceOf([Atom(ParamIPv4, ""), Atom(Literal, "all")])]
    requires Registrable(e) && p == [Id(e.es[0]), Id(e.es[1].children[1])]
    ensures !FreshAlong(TreeOf(e), [TWriter], p)
  {
    var pre := TypesAfter(e.es[0], [TWriter]);
    assert pre == [TWriter, TAddr];
    var c := Command(e.es[1..], pre, e.h, e.desc);
    SecondNotFresh(e.es[1..], pre, e.h, e.desc, p[1..]);
    CommandLookup(e.es, [TWriter], e.h, e.desc, p[0]);
    CommandTypesAt(e.es, [TWriter], e.h, e.desc);
    FreshAlongStep(TreeOf(e), [TWriter], Lookup(Alts(TreeOf(e)), p[0]).value, p);
  }

  lemma SecondNotFresh(es: seq<Node>, pre: seq<Ty>, h: Handler, desc: string, p: seq<string>)
    requires |es| == 1 && AllSupported(es) && es[0].t.Choice? && |es[0].children| == 2
    requires es[0].children[0].t == ParamIPv4 && TAddr in pre && p == [Id(es[0].children[1])]
    ensures !FreshAlong(Command(es, pre, h, desc), pre, p)
  {
    hide Command, AddChoiceTypes;
    var c := Command(es, pre, h, desc);
    CommandAlts(es, pre, h, desc);
    assert c.children[0] in c.children && c.children[0].t == ParamIPv4;
    assert !FreshChoice(pre, c.children);
    assert es[0] in es;
    SupportedAlts(es[0]);
    LookupIndex(es[0].children, 1);
    CommandLookup(es, pre, h, desc, p[0]);
  }
}
