// Declarations as trees: the paths of a chain of elements, its parameter types, and what
// setting a handler on its leaves does.

module CommandDeclaration {
  import opened Prelude
  import opened CommandTree
  import opened CommandTypes
  import opened CommandGrammar
  import opened CommandHelp

  predicate BareAtom(n: Node) {
    !n.t.Choice? && n == Atom(n.t, n.value)
  }

  /** An element that the tree operations support: one atom, or a choice of atoms with
      distinct ids. The parser also reads choices within choices and repeated options. */
  predicate Supported(e: Node) {
    || BareAtom(e)
    || (e.t.Choice? && e == ChoiceOf(e.children) && e.children != [] && DistinctIds(e.children) &&
        forall c :: c in e.children ==> BareAtom(c))
  }

  lemma SupportedAlts(e: Node)
    requires Supported(e)
    ensures forall i :: 0 <= i < |Alts(e)| ==> BareAtom(Alts(e)[i])
    ensures DistinctIds(Alts(e)) && Alts(e) != []
  {
  }

  predicate AllSupported(es: seq<Node>) {
    forall e :: e in es ==> Supported(e)
  }

  /** The elements of a typed chain, without their types. */
  ghost predicate InElements(es: seq<Node>, p: seq<string>) {
    1 <= |p| <= |es| && forall i :: 0 <= i < |p| ==> Lookup(Alts(es[i]), p[i]).Some?
  }

  // ---------------------------------------------------------------- typed chains

  /** WithTypes(Chain(es), pre), element by element. */
  function TypedChain(es: seq<Node>, pre: seq<Ty>): Node
    requires es != []
  {
    WithTypes(Chain(es), pre)
  }

  /** The types after element e. */
  function TypesAfter(e: Node, pre: seq<Ty>): seq<Ty> {
    if e.t.Choice? then AddChoiceTypes(pre, e.children) else pre + Own(e)
  }

  function Below(es: seq<Node>, pre: seq<Ty>): seq<Node>
    requires es != []
  {
    if |es| == 1 then [] else [TypedChain(es[1..], TypesAfter(es[0], pre))]
  }

  lemma ChoiceTypesLinked(pre: seq<Ty>, kids: seq<Node>, linked: seq<Node>)
    requires |kids| == |linked| && forall i :: 0 <= i < |kids| ==> linked[i].t == kids[i].t
    ensures AddChoiceTypes(pre, kids) == AddChoiceTypes(pre, linked)
  {
    if kids != [] {
      ChoiceTypesLinked(pre, kids[..|kids| - 1], linked[..|kids| - 1]);
    }
  }

  /** The alternatives of a typed chain are those of its first element, each with the types
      after it and the rest of the chain below. */
  lemma ChainAlts(es: seq<Node>, pre: seq<Ty>)
    requires es != [] && AllSupported(es)
    ensures var n, ts, b := TypedChain(es, pre), TypesAfter(es[0], pre), Below(es, pre);
      && n.t == es[0].t && n.explicitChoice == es[0].t.Choice?
      && |Alts(n)| == |Alts(es[0])|
      && forall i :: 0 <= i < |Alts(n)| ==>
           Alts(n)[i] == Alts(es[0])[i].(paramTypes := ts, children := b)
  {
    var e := es[0];
    assert e in es;
    var n, ts := TypedChain(es, pre), TypesAfter(e, pre);
    if |es| > 1 {
      var rest := Chain(es[1..]);
      assert AllWithTypes([rest], ts) == [WithTypes(rest, ts)];
      if e.t.Choice? {
        ChoiceTypesLinked(pre, e.children, Link(e, rest).children);
        forall i | 0 <= i < |e.children| ensures n.children[i] == e.children[i].(paramTypes := ts,
          children := Below(es, pre)) {
          var kid := e.children[i];
          assert kid in e.children && kid.children == [];
          assert Link(e, rest).children[i] == kid.(children := [rest]);
          assert n.children[i] == OptionWithTypes(kid.(children := [rest]), ts);
        }
      } else {
        assert Link(e, rest) == e.(children := [rest]);
      }
    } else {
      assert AllWithTypes([], ts) == [];
      if e.t.Choice? {
        forall i | 0 <= i < |e.children| ensures n.children[i] == e.children[i].(paramTypes := ts, children := []) {
          var kid := e.children[i];
          assert kid in e.children && kid.children == [];
          assert n.children[i] == OptionWithTypes(kid, ts);
        }
      }
    }
  }

  // ---------------------------------------------------------------- leaves

  /** Node.Leaves: the nodes at which a command may end. */
  function LeavesOf(n: Node): seq<Node>
    decreases n, 1
  {
    if n.t.Choice? then LeavesOfAll(n.children)
    else match Next(n)
      case None => [n]
      case Some(c) => LeavesOf(c)
  }

  function LeavesOfAll(ns: seq<Node>): seq<Node>
    decreases ns, 0
  {
    if ns == [] then [] else AddNew(LeavesOfAll(ns[..|ns| - 1]), LeavesOf(ns[|ns| - 1]))
  }

  method Leaves(n: Node) returns (leaves: seq<Node>)
    ensures leaves == LeavesOf(n)
    decreases n
  {
    hide AddNew;
    if n.t.Choice? {
      leaves := [];
      for i := 0 to |n.children|
        invariant leaves == LeavesOfAll(n.children[..i])
      {
        assert n.children[..i + 1][..i] == n.children[..i];
        var ls := Leaves(n.children[i]);
        leaves := AppendNew(leaves, ls);
      }
      assert n.children[..|n.children|] == n.children;
    } else if |n.children| == 0 {
      leaves := [n];
    } else {
      leaves := Leaves(n.children[0]);
    }
  }

  /** The tree with handler and description set on every leaf. The options of a choice share
      what follows them, so setting a leaf sets it below every option. */
  function SetLeaves(n: Node, h: Handler, desc: string): Node {
    if n.t.Choice? then
      n.(children := seq(|n.children|, i requires 0 <= i < |n.children| => SetLeaves(n.children[i], h, desc)))
    else match Next(n)
      case None => n.(handler := Some(h), description := desc)
      case Some(c) => n.(children := [SetLeaves(c, h, desc)])
  }

  /** Whether SetHandlerFunc accepts the handler for a leaf. */
  predicate FitsLeaf(h: Handler, leaf: Node) {
    h.params == leaf.paramTypes && h.returnsError
  }

  /** The types of all parameters of the elements es. */
  function FinalTypes(es: seq<Node>, pre: seq<Ty>): seq<Ty> {
    if es == [] then pre else FinalTypes(es[1..], TypesAfter(es[0], pre))
  }

  lemma {:induction false} AddNewMembers(a: seq<Node>, b: seq<Node>)
    ensures forall n :: n in AddNew(a, b) ==> n in a || n in b
    ensures a != [] || b != [] ==> AddNew(a, b) != []
  {
    if b != [] {
      AddNewMembers(a, b[..|b| - 1]);
    }
  }

  lemma {:induction false} AllLeaves(ns: seq<Node>, leaf: Node)
    requires leaf in LeavesOfAll(ns)
    ensures exists i :: 0 <= i < |ns| && leaf in LeavesOf(ns[i])
  {
    var init, last := ns[..|ns| - 1], ns[|ns| - 1];
    AddNewMembers(LeavesOfAll(init), LeavesOf(last));
    if leaf in LeavesOfAll(init) {
      AllLeaves(init, leaf);
      var i :| 0 <= i < |init| && leaf in LeavesOf(init[i]);
      assert ns[i] == init[i];
    }
  }

  lemma {:induction false} SomeLeaves(ns: seq<Node>)
    requires ns != [] && LeavesOf(ns[0]) != []
    ensures LeavesOfAll(ns) != []
  {
    var init, last := ns[..|ns| - 1], ns[|ns| - 1];
    AddNewMembers(LeavesOfAll(init), LeavesOf(last));
    if |ns| > 1 {
      SomeLeaves(init);
    }
  }

  lemma AltLeaves(es: seq<Node>, pre: seq<Ty>, i: nat)
    requires es != [] && AllSupported(es) && i < |Alts(TypedChain(es, pre))|
    ensures var a := Alts(TypedChain(es, pre))[i];
      if |es| == 1 then LeavesOf(a) == [a] && a.paramTypes == FinalTypes(es, pre)
      else LeavesOf(a) == LeavesOf(TypedChain(es[1..], TypesAfter(es[0], pre)))
  {
    ChainAlts(es, pre);
    assert es[0] in es;
    SupportedAlts(es[0]);
  }

  /** Every leaf of a declaration has the types of all its parameters. */
  lemma {:induction false} LeafTypes(es: seq<Node>, pre: seq<Ty>)
    requires es != [] && AllSupported(es)
    ensures LeavesOf(TypedChain(es, pre)) != []
    ensures forall l :: l in LeavesOf(TypedChain(es, pre)) ==> l.paramTypes == FinalTypes(es, pre)
    decreases |es|
  {
    var n := TypedChain(es, pre);
    ChainAlts(es, pre);
    if |es| > 1 {
      assert AllSupported(es[1..]);
      LeafTypes(es[1..], TypesAfter(es[0], pre));
    }
    assert es[0] in es;
    SupportedAlts(es[0]);
    forall i, l | 0 <= i < |Alts(n)| && l in LeavesOf(Alts(n)[i]) ensures l.paramTypes == FinalTypes(es, pre) {
      AltLeaves(es, pre, i);
    }
    AltLeaves(es, pre, 0);
    if n.t.Choice? {
      SomeLeaves(n.children);
      forall l | l in LeavesOf(n) ensures l.paramTypes == FinalTypes(es, pre) {
        AllLeaves(n.children, l);
      }
    }
  }

  /** The leaves of a declaration are the alternatives of its last element. */
  lemma {:induction false} LeavesAre(es: seq<Node>, pre: seq<Ty>)
    requires es != [] && AllSupported(es)
    ensures Ids(LeavesOf(TypedChain(es, pre))) == Ids(Alts(es[|es| - 1]))
    decreases |es|
  {
    hide TypedChain, TypesAfter, FinalTypes;
    var n, k := TypedChain(es, pre), |es| - 1;
    ChainAlts(es, pre);
    assert es[0] in es;
    SupportedAlts(es[0]);
    forall i | 0 <= i < |Alts(n)|
      ensures |es| == 1 ==> LeavesOf(Alts(n)[i]) == [Alts(n)[i]]
      ensures |es| > 1 ==> LeavesOf(Alts(n)[i]) == LeavesOf(TypedChain(es[1..], TypesAfter(es[0], pre)))
    {
      AltLeaves(es, pre, i);
    }
    if |es| > 1 {
      assert AllSupported(es[1..]) && es[1..][|es[1..]| - 1] == es[k];
      LeavesAre(es[1..], TypesAfter(es[0], pre));
      SupportedLast(es);
      SameLeaves(Alts(n), LeavesOf(TypedChain(es[1..], TypesAfter(es[0], pre))));
    } else {
      SameAltIds(Alts(n), Alts(es[0]));
      OwnLeaves(Alts(n));
    }
  }

  lemma SupportedLast(es: seq<Node>)
    requires es != [] && AllSupported(es)
    ensures DistinctIds(Alts(es[|es| - 1]))
  {
    assert es[|es| - 1] in es;
    SupportedAlts(es[|es| - 1]);
  }

  lemma SameAltIds(ns: seq<Node>, ms: seq<Node>)
    requires |ns| == |ms| && forall i :: 0 <= i < |ns| ==> ns[i].t == ms[i].t && ns[i].value == ms[i].value
    ensures Ids(ns) == Ids(ms)
  {
  }

  lemma AddOneNew(ns: seq<Node>, b: Node)
    requires forall i :: 0 <= i < |ns| ==> Id(ns[i]) != Id(b)
    ensures AddNew(ns, [b]) == ns + [b]
  {
    assert [b][..0] == [];
  }

  /** Alternatives that are leaves themselves. */
  lemma {:induction false} OwnLeaves(ns: seq<Node>)
    requires DistinctIds(ns) && forall i :: 0 <= i < |ns| ==> LeavesOf(ns[i]) == [ns[i]]
    ensures LeavesOfAll(ns) == ns
  {
    hide AddNew, LeavesOf, FindIndex;
    if ns != [] {
      var init, last := ns[..|ns| - 1], ns[|ns| - 1];
      OwnLeaves(init);
      AddOneNew(init, last);
      assert ns == init + [last];
    }
  }

  /** Alternatives that all have the same leaves. */
  lemma {:induction false} SameLeaves(ns: seq<Node>, leaves: seq<Node>)
    requires ns != [] && DistinctIds(leaves) && forall i :: 0 <= i < |ns| ==> LeavesOf(ns[i]) == leaves
    ensures LeavesOfAll(ns) == leaves
  {
    var init := ns[..|ns| - 1];
    if init == [] {
      AddNewToNone(leaves);
    } else {
      SameLeaves(init, leaves);
      AddNoneNew(leaves, |leaves|);
      assert leaves[..|leaves|] == leaves;
    }
  }

  lemma {:induction false} AddNoneNew(ns: seq<Node>, k: nat)
    requires k <= |ns|
    ensures AddNew(ns, ns[..k]) == ns
  {
    if k > 0 {
      AddNoneNew(ns, k - 1);
      assert ns[..k][..k - 1] == ns[..k - 1];
      assert FindIndex(ns, Id(ns[k - 1])) != -1;
    }
  }

  // ---------------------------------------------------------------- a declared command

  /** The tree of a declaration with its handler and description. */
  function Command(es: seq<Node>, pre: seq<Ty>, h: Handler, desc: string): Node
    requires es != []
  {
    SetLeaves(TypedChain(es, pre), h, desc)
  }

  function BelowCommand(es: seq<Node>, pre: seq<Ty>, h: Handler, desc: string): seq<Node>
    requires es != []
  {
    if |es| == 1 then [] else [Command(es[1..], TypesAfter(es[0], pre), h, desc)]
  }

  function CommandAlt(a: Node, es: seq<Node>, pre: seq<Ty>, h: Handler, desc: string): Node
    requires es != []
  {
    var b := a.(paramTypes := TypesAfter(es[0], pre), children := BelowCommand(es, pre, h, desc));
    if |es| == 1 then b.(handler := Some(h), description := desc) else b
  }

  lemma CommandAlts(es: seq<Node>, pre: seq<Ty>, h: Handler, desc: string)
    requires es != [] && AllSupported(es)
    ensures var n := Command(es, pre, h, desc);
      && n.t == es[0].t && n.explicitChoice == es[0].t.Choice?
      && |Alts(n)| == |Alts(es[0])|
      && forall i :: 0 <= i < |Alts(n)| ==> Alts(n)[i] == CommandAlt(Alts(es[0])[i], es, pre, h, desc)
  {
    ChainAlts(es, pre);
    var c, n := TypedChain(es, pre), Command(es, pre, h, desc);
    assert es[0] in es;
    forall i | 0 <= i < |Alts(c)| ensures SetLeaves(Alts(c)[i], h, desc) == CommandAlt(Alts(es[0])[i], es, pre, h,
      desc) {
      SupportedAlts(es[0]);
    }
  }

  lemma CommandAltId(a: Node, es: seq<Node>, pre: seq<Ty>, h: Handler, desc: string)
    requires es != []
    ensures Id(CommandAlt(a, es, pre, h, desc)) == Id(a)
  {
    SameId(CommandAlt(a, es, pre, h, desc), a);
  }

  lemma CommandIds(es: seq<Node>, pre: seq<Ty>, h: Handler, desc: string)
    requires es != [] && AllSupported(es)
    ensures var n := Command(es, pre, h, desc);
      && n.t == es[0].t && |Alts(n)| == |Alts(es[0])|
      && forall i :: 0 <= i < |Alts(n)| ==> Id(Alts(es[0])[i]) == Id(Alts(n)[i])
  {
    hide Command, CommandAlt;
    CommandAlts(es, pre, h, desc);
    var n := Command(es, pre, h, desc);
    forall i | 0 <= i < |Alts(n)| ensures Id(Alts(es[0])[i]) == Id(Alts(n)[i]) {
      CommandAltId(Alts(es[0])[i], es, pre, h, desc);
    }
  }

  lemma CommandLookup(es: seq<Node>, pre: seq<Ty>, h: Handler, desc: string, id: string)
    requires es != [] && AllSupported(es)
    ensures var n := Command(es, pre, h, desc);
      Lookup(Alts(n), id) == match Lookup(Alts(es[0]), id)
        case None => None
        case Some(a) => Some(CommandAlt(a, es, pre, h, desc))
  {
    hide Command, CommandAlt, Supported;
    CommandAlts(es, pre, h, desc);
    CommandIds(es, pre, h, desc);
    var n := Command(es, pre, h, desc);
    SameIdsSameIndex(Alts(n), Alts(es[0]), id);
  }

  lemma SameIdsAll(us: seq<Node>, vs: seq<Node>)
    requires |us| == |vs| && forall i :: 0 <= i < |us| ==> Id(us[i]) == Id(vs[i])
    ensures Ids(us) == Ids(vs)
  {
  }

  lemma SameIdsSameIndex(us: seq<Node>, vs: seq<Node>, id: string)
    requires |us| == |vs| && forall i :: 0 <= i < |us| ==> Id(us[i]) == Id(vs[i])
    ensures FindIndex(us, id) == FindIndex(vs, id)
  {
  }

  /** A declared command has exactly the paths through its elements, with its handler and
      description at the end of the full ones and nothing set before. */
  lemma {:induction false} CommandPaths(es: seq<Node>, pre: seq<Ty>, h: Handler, desc: string, p: seq<string>)
    requires es != [] && AllSupported(es)
    ensures AtPath(Command(es, pre, h, desc), p) ==
      if !InElements(es, p) then None
      else if |p| == |es| then Some(Attrs(desc, Some(h), None))
      else Some(Attrs("", None, None))
    decreases |es|
  {
    if p != [] {
      CommandLookup(es, pre, h, desc, p[0]);
      assert es[0] in es;
      var a := Lookup(Alts(es[0]), p[0]);
      if a.Some? {
        assert BareAtom(a.value);
        if |p| > 1 && |es| > 1 {
          assert AllSupported(es[1..]);
          CommandPaths(es[1..], TypesAfter(es[0], pre), h, desc, p[1..]);
          InElementsTail(es, p);
        }
      }
    }
  }

  lemma InElementsTail(es: seq<Node>, p: seq<string>)
    requires |es| > 1 && |p| > 1
    ensures InElements(es, p) <==> Lookup(Alts(es[0]), p[0]).Some? && InElements(es[1..], p[1..])
  {
    if InElements(es, p) {
      assert forall i :: 0 <= i < |p| - 1 ==> es[1..][i] == es[i + 1] && p[1..][i] == p[i + 1];
    }
    if Lookup(Alts(es[0]), p[0]).Some? && InElements(es[1..], p[1..]) {
      forall i | 0 <= i < |p| ensures Lookup(Alts(es[i]), p[i]).Some? {
        if i > 0 {
          assert es[1..][i - 1] == es[i] && p[1..][i - 1] == p[i];
        }
      }
    }
  }

  /** A node is well formed when its alternatives are e's with a common, well-formed rest. */
  lemma WellFormedFromAlts(n: Node, e: Node, below: seq<Node>)
    requires Supported(e) && n.t == e.t && n.explicitChoice == e.t.Choice? && |Alts(n)| == |Alts(e)|
    requires |below| <= 1 && forall c :: c in below ==> WellFormed(c)
    requires forall i :: 0 <= i < |Alts(n)| ==> Alts(n)[i].t == Alts(e)[i].t && Alts(n)[i].value == Alts(e)[i].value
    requires forall i :: 0 <= i < |Alts(n)| ==> !Alts(n)[i].explicitChoice && Alts(n)[i].children == below
    ensures WellFormed(n)
  {
    SupportedAlts(e);
    forall i | 0 <= i < |Alts(n)| ensures WellFormedAtom(Alts(n)[i]) && Id(Alts(n)[i]) == Id(Alts(e)[i]) {
      assert BareAtom(Alts(e)[i]);
    }
    if !n.t.Choice? {
      assert n == Alts(n)[0];
    }
  }

  lemma {:induction false} CommandWellFormed(es: seq<Node>, pre: seq<Ty>, h: Handler, desc: string)
    requires es != [] && AllSupported(es)
    ensures WellFormed(Command(es, pre, h, desc))
    decreases |es|
  {
    hide WellFormed, Command, Supported, Alts;
    var n := Command(es, pre, h, desc);
    CommandAlts(es, pre, h, desc);
    assert es[0] in es;
    if |es| > 1 {
      assert AllSupported(es[1..]);
      CommandWellFormed(es[1..], TypesAfter(es[0], pre), h, desc);
    }
    SupportedAlts(es[0]);
    WellFormedFromAlts(n, es[0], BelowCommand(es, pre, h, desc));
  }

  /** A declared command is typed when its handler takes the types of its parameters. */
  lemma {:induction false} CommandTyped(es: seq<Node>, pre: seq<Ty>, h: Handler, desc: string)
    requires es != [] && AllSupported(es) && h.params == FinalTypes(es, pre) && h.returnsError
    ensures Typed(Command(es, pre, h, desc), pre)
    decreases |es|
  {
    var n := Command(es, pre, h, desc);
    CommandAlts(es, pre, h, desc);
    assert es[0] in es;
    if |es| > 1 {
      assert AllSupported(es[1..]);
      CommandTyped(es[1..], TypesAfter(es[0], pre), h, desc);
    }
    CommandTypesAt(es, pre, h, desc);
    forall i | 0 <= i < |Alts(n)| ensures TypedAtom(Alts(n)[i], TypesAfter(es[0], pre)) {
      SupportedAlts(es[0]);
    }
    if !n.t.Choice? {
      assert n == Alts(n)[0];
    }
  }

  lemma CommandTypesAt(es: seq<Node>, pre: seq<Ty>, h: Handler, desc: string)
    requires es != [] && AllSupported(es)
    ensures var n := Command(es, pre, h, desc);
      forall a :: a in Alts(n) ==> TypesAt(n, a, pre) == TypesAfter(es[0], pre)
  {
    var n := Command(es, pre, h, desc);
    CommandAlts(es, pre, h, desc);
    if es[0].t.Choice? {
      ChoiceTypesLinked(pre, es[0].children, n.children);
    }
  }

  /** No choice repeats the type of an earlier parameter. */
  ghost predicate FreshElements(es: seq<Node>, pre: seq<Ty>) {
    es != [] ==>
      && (es[0].t.Choice? ==> FreshChoice(pre, es[0].children))
      && FreshElements(es[1..], TypesAfter(es[0], pre))
  }

  lemma {:induction false} CommandFresh(es: seq<Node>, pre: seq<Ty>, h: Handler, desc: string, p: seq<string>)
    requires es != [] && AllSupported(es) && FreshElements(es, pre)
    ensures FreshAlong(Command(es, pre, h, desc), pre, p)
    decreases |es|
  {
    var n := Command(es, pre, h, desc);
    if p != [] {
      CommandLookup(es, pre, h, desc, p[0]);
      CommandFreshHead(es, pre, h, desc);
      var a := Lookup(Alts(n), p[0]);
      if |es| > 1 && a.Some? {
        assert AllSupported(es[1..]);
        CommandFresh(es[1..], TypesAfter(es[0], pre), h, desc, p[1..]);
        FreshAlongNext(n, pre, p, a.value, Command(es[1..], TypesAfter(es[0], pre), h, desc));
      }
    }
  }

  lemma FreshAlongNext(n: Node, pre: seq<Ty>, p: seq<string>, a: Node, c: Node)
    requires p != [] && Lookup(Alts(n), p[0]) == Some(a) && Next(a) == Some(c)
    requires HeadOf(n).Explicit? ==> FreshChoice(pre, n.children)
    requires FreshAlong(c, TypesAt(n, a, pre), p[1..])
    ensures FreshAlong(n, pre, p)
  {
  }

  lemma CommandFreshHead(es: seq<Node>, pre: seq<Ty>, h: Handler, desc: string)
    requires es != [] && AllSupported(es) && FreshElements(es, pre)
    ensures var n := Command(es, pre, h, desc);
      && (HeadOf(n).Explicit? ==> FreshChoice(pre, n.children))
      && forall a :: a in Alts(n) ==> TypesAt(n, a, pre) == TypesAfter(es[0], pre)
  {
    var n := Command(es, pre, h, desc);
    CommandTypesAt(es, pre, h, desc);
    if n.t.Choice? {
      CommandIds(es, pre, h, desc);
      SameIdsAll(es[0].children, n.children);
      FreshChoiceOfIds(pre, es[0].children, n.children);
    }
  }
}
