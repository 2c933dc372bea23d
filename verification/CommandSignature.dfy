// Which declarations CLI.Register accepts for which handlers, and what a line then calls, in
// terms of the text, the elements it spells out, and the handler's type.

module CommandSignature {
  import opened Prelude
  import opened Addresses
  import opened CommandTree
  import opened CommandTypes
  import opened CommandMatch
  import opened CommandCalls
  import opened CommandArguments
  import opened CommandGrammar
  import opened CommandLanguage
  import opened CommandDeclaration
  import opened CommandRegistry
  import opened Cli

  // ---------------------------------------------------------------- handler types

  /** The types pre, and those that the first k options of an explicit choice add. */
  function OptionTypes(pre: seq<Ty>, kids: seq<Node>, k: nat): seq<Ty>
    requires AtomsOnly(kids) && k <= |kids|
  {
    if k == 0 then pre
    else
      assert kids[k - 1] in kids;
      OptionTypes(pre, kids, k - 1) + if Adds(pre, kids, k - 1) then [SortType(kids[k - 1].t)] else []
  }

  /** The types pre, and those of the parameters of the elements es: none for a literal, one
      for a parameter, and for a choice those of its options that add one. */
  function Signature(es: seq<Node>, pre: seq<Ty>): seq<Ty>
    requires AllSupported(es)
  {
    if es == [] then pre
    else
      assert es[0] in es;
      var first :=
        match es[0].t
        case Literal => pre
        case ParamString => pre + [TString]
        case Choice => OptionTypes(pre, es[0].children, |es[0].children|)
        case _ => pre + [TAddr];
      Signature(es[1..], first)
  }

  lemma {:induction false} OptionTypesAre(pre: seq<Ty>, kids: seq<Node>, k: nat)
    requires AtomsOnly(kids) && k <= |kids|
    ensures AddChoiceTypes(pre, kids[..k]) == OptionTypes(pre, kids, k)
  {
    hide Adds, SortType, AddChoiceTypes;
    if k == 0 {
      assert kids[..0] == [];
      NoOptionTypes(pre);
    } else {
      var j, ts := k - 1, OptionTypes(pre, kids, k - 1);
      OptionTypesAre(pre, kids, j);
      CommandArguments.LastOption(pre, kids, j);
      assert j + 1 == k && ts + [] == ts;
    }
  }

  lemma NoOptionTypes(pre: seq<Ty>)
    ensures AddChoiceTypes(pre, []) == pre
  {
  }

  lemma FirstTypes(e: Node, pre: seq<Ty>)
    requires Supported(e)
    ensures TypesAfter(e, pre) ==
      match e.t
      case Literal => pre
      case ParamString => pre + [TString]
      case Choice => OptionTypes(pre, e.children, |e.children|)
      case _ => pre + [TAddr]
  {
    hide AddChoiceTypes, OptionTypes;
    if e.t == Choice {
      OptionTypesAre(pre, e.children, |e.children|);
      assert e.children[..|e.children|] == e.children;
    } else if e.t == Literal {
      assert pre + [] == pre;
    }
  }

  lemma {:induction false} SignatureIs(es: seq<Node>, pre: seq<Ty>)
    requires AllSupported(es)
    ensures FinalTypes(es, pre) == Signature(es, pre)
  {
    hide AddChoiceTypes, OptionTypes;
    if es != [] {
      var e := es[0];
      assert e in es && AllSupported(es[1..]);
      SignatureIs(es[1..], TypesAfter(e, pre));
      FirstTypes(e, pre);
      assert Signature(es, pre) == Signature(es[1..], TypesAfter(e, pre));
    }
  }

  /** A declaration is accepted for a handler, other commands aside, exactly when the handler
      takes a writer and the types of the parameters that the text spells out, and returns an
      error; the tree it adds then has the handler and the description at the end of every
      path that takes one alternative of each element, and nothing anywhere else. */
  lemma AcceptedIff(command: string, es: seq<Node>, desc: string, h: Handler, p: seq<string>)
    requires Sentence(command, 0, es) && AllSupported(es)
    ensures SupportedText(command)
    ensures var r := CommandOf(command, desc, h);
      && (r.Ok? <==> h.returnsError && h.params == Signature(es, [TWriter]))
      && (r.Ok? && |p| == |es| && InElements(es, p) ==> AtPath(r.value, p) == Some(Attrs(desc, Some(h), None)))
      && (r.Ok? && |p| < |es| && InElements(es, p) ==> AtPath(r.value, p) == Some(Attrs("", None, None)))
      && (r.Ok? && !InElements(es, p) ==> AtPath(r.value, p) == None)
  {
    hide Sentence, Signature, FinalTypes, InElements, Command;
    DeclarationIff(command, 0, es);
    SignatureIs(es, [TWriter]);
    CommandPaths(es, [TWriter], h, desc, p);
  }

  /** A text that is no sentence of the declaration language is not accepted. */
  lemma NoSentence(command: string, desc: string, h: Handler)
    requires forall es :: !Sentence(command, 0, es)
    ensures SupportedText(command) && CommandOf(command, desc, h).Err?
  {
    hide Sentence;
    var r := ParseElements(command, 0);
    if r.Elements? {
      DeclarationIff(command, 0, r.es);
    }
  }

  // ---------------------------------------------------------------- what a line calls

  /** A line for which one match is chosen, and that is complete, calls the handler registered
      last for the path of that match, with the values described token by token. */
  lemma LineCalls(entries: seq<Entry>, root: Node, tokens: seq<string>, v6: V6Parser, m: Match)
    requires RootOf(entries, root) && tokens != [] && Chosen(root, tokens, v6) == [m] && m.isComplete
    ensures IsCall(root, tokens, v6, m, ChainArgs(m))
    ensures AcceptsPath(ChainIds(m), tokens, v6)
    ensures Last(m).node.handler.Some? && Last(m).node.handler == HandlerOf(entries, ChainIds(m))
  {
    hide MatchNodes, Chosen, RootOf, IsCall;
    RootGood(entries, root);
    assert m in [m];
    ChosenAreMatches(root, tokens, v6, m);
    CallIff(root, tokens, v6, m, ChainArgs(m));
    MatchAltsGood(root, |Alts(root)|, tokens, v6);
    NodesAreAlts(root, tokens, v6);
    RegisteredAt(entries, root, ChainIds(m));
    AtPathIs(root, ChainIds(m));
  }

  lemma NodesAreAlts(n: Node, tokens: seq<string>, v6: V6Parser)
    requires tokens != []
    ensures MatchNodes(n, tokens, v6) == MatchAlts(n, |Alts(n)|, tokens, v6)
  {
  }
}
