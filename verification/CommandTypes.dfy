// The parameter types of a command, from which the type of its handler is derived.

module CommandTypes {
  import opened Prelude
  import opened CommandTree
  import opened CommandMerge

  function ParamType(t: NodeType, inChoice: bool): Option<Ty> {
    match t
    case ParamString => Some(TString)
    case ParamIPv4 => Some(TAddr)
    case ParamIPv6 => Some(TAddr)
    case Literal => if inChoice then Some(TBool) else None
    case Choice => None
  }

  /** The parameter type an atom adds outside an explicit choice. */
  function Own(n: Node): seq<Ty> {
    match ParamType(n.t, false)
    case None => []
    case Some(t) => [t]
  }

  /** types, then the types of the options kids: one flag for every literal, and every
      parameter type that types and the options before do not have already. */
  function AddChoiceTypes(types: seq<Ty>, kids: seq<Node>): seq<Ty> {
    if kids == [] then types
    else
      var ts := AddChoiceTypes(types, kids[..|kids| - 1]);
      match ParamType(kids[|kids| - 1].t, true)
      case None => ts
      case Some(t) => if t !in ts || t == TBool then ts + [t] else ts
  }

  function WithTypes(n: Node, types: seq<Ty>): Node
    decreases n, 1
  {
    if n.t.Choice? then
      var ts := AddChoiceTypes(types, n.children);
      n.(children := seq(|n.children|, i requires 0 <= i < |n.children| => OptionWithTypes(n.children[i], ts)))
    else
      var ts := types + Own(n);
      n.(paramTypes := ts, children := AllWithTypes(n.children, ts))
  }

  function OptionWithTypes(kid: Node, ts: seq<Ty>): Node
    decreases kid, 0
  {
    kid.(paramTypes := ts, children := AllWithTypes(kid.children, ts))
  }

  function AllWithTypes(ns: seq<Node>, ts: seq<Ty>): seq<Node>
    decreases ns, 2
  {
    seq(|ns|, j requires 0 <= j < |ns| => WithTypes(ns[j], ts))
  }

  /** updateParamTypesWithTypes, on a tree that is a value. */
  method UpdateParamTypesWithTypes(n: Node, types: seq<Ty>) returns (r: Node)
    ensures r == WithTypes(n, types)
    decreases n
  {
    var clonedTypes := types;
    if n.t.Choice? {
      for i := 0 to |n.children|
        invariant clonedTypes == AddChoiceTypes(types, n.children[..i])
      {
        assert n.children[..i + 1][..i] == n.children[..i];
        var t := ParamType(n.children[i].t, true);
        if t.Some? && (t.value !in clonedTypes || t.value == TBool) {
          clonedTypes := clonedTypes + [t.value];
        }
      }
      assert n.children[..|n.children|] == n.children;
      var kids: seq<Node> := [];
      for i := 0 to |n.children|
        invariant |kids| == i && forall k :: 0 <= k < i ==> kids[k] == OptionWithTypes(n.children[k], clonedTypes)
      {
        var grandkids := UpdateAll(n.children[i].children, clonedTypes);
        kids := kids + [n.children[i].(paramTypes := clonedTypes, children := grandkids)];
      }
      assert kids == WithTypes(n, types).children;
      r := n.(children := kids);
    } else {
      var t := ParamType(n.t, false);
      if t.Some? {
        clonedTypes := clonedTypes + [t.value];
      }
      assert clonedTypes == types + Own(n);
      var kids := UpdateAll(n.children, clonedTypes);
      r := n.(paramTypes := clonedTypes, children := kids);
    }
  }

  method UpdateAll(ns: seq<Node>, types: seq<Ty>) returns (rs: seq<Node>)
    ensures rs == AllWithTypes(ns, types)
    decreases ns
  {
    rs := [];
    for j := 0 to |ns|
      invariant |rs| == j && forall k :: 0 <= k < j ==> rs[k] == WithTypes(ns[k], types)
    {
      var r := UpdateParamTypesWithTypes(ns[j], types);
      rs := rs + [r];
    }
  }

  // ---------------------------------------------------------------- typed trees

  /** The types of all parameters up to and including alternative a of n. */
  function TypesAt(n: Node, a: Node, pre: seq<Ty>): seq<Ty> {
    if HeadOf(n).Explicit? then AddChoiceTypes(pre, n.children) else pre + Own(a)
  }

  /** Every node carries the types of the parameters on the way to it, and a handler, if
      set, takes exactly these and returns an error. */
  ghost predicate Typed(n: Node, pre: seq<Ty>)
    decreases n, 1
  {
    if n.t.Choice? then
      forall a :: a in n.children ==> TypedAtom(a, TypesAt(n, a, pre))
    else TypedAtom(n, TypesAt(n, n, pre))
  }

  ghost predicate TypedAtom(a: Node, ts: seq<Ty>)
    decreases a, 0
  {
    && a.paramTypes == ts
    && (a.handler.Some? ==> a.handler.value.params == ts && a.handler.value.returnsError)
    && (forall c :: c in a.children ==> Typed(c, ts))
  }

  lemma TypedAlt(n: Node, pre: seq<Ty>, id: string)
    requires Typed(n, pre) && Lookup(Alts(n), id).Some?
    ensures var a := Lookup(Alts(n), id).value;
      TypedAtom(a, TypesAt(n, a, pre)) && (Next(a).Some? ==> Typed(Next(a).value, TypesAt(n, a, pre)))
  {
  }

  /** Choice types depend only on the ids of the options. */
  lemma {:induction false} ChoiceTypesOfIds(types: seq<Ty>, us: seq<Node>, vs: seq<Node>)
    requires Ids(us) == Ids(vs)
    ensures AddChoiceTypes(types, us) == AddChoiceTypes(types, vs)
  {
    assert |us| == |Ids(us)| == |Ids(vs)| == |vs|;
    if us != [] {
      var k := |us| - 1;
      assert Ids(us)[k] == Ids(vs)[k];
      SameId(us[k], vs[k]);
      assert Ids(us[..k]) == Ids(us)[..k] == Ids(vs[..k]);
      ChoiceTypesOfIds(types, us[..k], vs[..k]);
    }
  }

  lemma TypesAtSame(u: Node, a: Node, v: Node, b: Node, pre: seq<Ty>)
    requires HeadOf(u) == HeadOf(v) && Id(a) == Id(b)
    ensures TypesAt(u, a, pre) == TypesAt(v, b, pre)
  {
    SameId(a, b);
    if HeadOf(u).Explicit? {
      ChoiceTypesOfIds(pre, u.children, v.children);
    }
  }

  /** Merge keeps trees typed, so a handler always fits the place it ends up in. */
  lemma {:induction false} MergeKeepsTyped(u: Node, v: Node, pre: seq<Ty>)
    requires WellFormed(u) && WellFormed(v) && Typed(u, pre) && Typed(v, pre) && MergeNodes(u, v).Ok?
    ensures Typed(MergeNodes(u, v).value, pre)
    decreases Size(v), 1
  {
    var m := MergeNodes(u, v).value;
    MergeKeepsHead(u, v);
    forall i | 0 <= i < |Alts(m)| ensures TypedAtom(Alts(m)[i], TypesAt(m, Alts(m)[i], pre)) {
      var r := Alts(m)[i];
      MergeNodesLookup(u, v, Id(r));
      LookupIndex(Alts(m), i);
      var a, b := Lookup(Alts(u), Id(r)), Lookup(Alts(v), Id(r));
      if a.Some? {
        LookupWellFormed(u, Id(r));
        TypedAlt(u, pre, Id(r));
        TypesAtSame(u, a.value, m, r, pre);
      }
      if b.Some? {
        LookupWellFormed(v, Id(r));
        TypedAlt(v, pre, Id(r));
        TypesAtSame(v, b.value, m, r, pre);
      }
      if a.Some? && b.Some? {
        MergeAtomsKeepsTyped(a.value, b.value, TypesAt(m, r, pre));
      }
    }
    assert !m.t.Choice? ==> Alts(m)[0] == m;
  }

  lemma {:induction false} MergeAtomsKeepsTyped(a: Node, b: Node, ts: seq<Ty>)
    requires WellFormedAtom(a) && WellFormedAtom(b) && TypedAtom(a, ts) && TypedAtom(b, ts) && MergeAtoms(a, b).Ok?
    ensures TypedAtom(MergeAtoms(a, b).value, ts)
    decreases Size(b), 0
  {
    if a.children != [] && b.children != [] {
      MergeKeepsTyped(a.children[0], b.children[0], ts);
    }
  }

  // ---------------------------------------------------------------- fresh choices

  /** No option's parameter type occurs among the types pre of the parameters before. */
  ghost predicate FreshChoice(pre: seq<Ty>, kids: seq<Node>) {
    forall k :: k in kids && k.t in {ParamString, ParamIPv4, ParamIPv6} ==> ParamType(k.t, true).value !in pre
  }

  /** Every explicit choice on the path p is fresh. */
  ghost predicate FreshAlong(n: Node, pre: seq<Ty>, p: seq<string>)
    decreases |p|
  {
    if p == [] then true
    else match Lookup(Alts(n), p[0])
      case None => true
      case Some(a) =>
        && (HeadOf(n).Explicit? ==> FreshChoice(pre, n.children))
        && (match Next(a)
            case None => true
            case Some(c) => FreshAlong(c, TypesAt(n, a, pre), p[1..]))
  }

  ghost predicate Fresh(n: Node, pre: seq<Ty>) {
    forall p :: HasPath(n, p) ==> FreshAlong(n, pre, p)
  }

  lemma {:induction false} ChoiceTypesMembers(pre: seq<Ty>, kids: seq<Node>, t: Ty)
    ensures t in AddChoiceTypes(pre, kids) <==> t in pre || t in AddChoiceTypes([], kids)
    ensures t in AddChoiceTypes([], kids) <==> exists k :: k in kids && ParamType(k.t, true) == Some(t)
  {
    if kids != [] {
      var init, last := kids[..|kids| - 1], kids[|kids| - 1];
      ChoiceTypesMembers(pre, init, t);
      assert forall k :: k in kids <==> k in init || k == last;
    }
  }

  /** A choice adds the types of its own argument list exactly when it is fresh; otherwise
      it adds fewer. */
  lemma {:induction false} ChoiceTypesFresh(pre: seq<Ty>, kids: seq<Node>)
    ensures FreshChoice(pre, kids) ==> AddChoiceTypes(pre, kids) == pre + AddChoiceTypes([], kids)
    ensures |AddChoiceTypes(pre, kids)| <= |pre| + |AddChoiceTypes([], kids)|
    ensures !FreshChoice(pre, kids) ==> |AddChoiceTypes(pre, kids)| < |pre| + |AddChoiceTypes([], kids)|
  {
    if kids != [] {
      var init, last := kids[..|kids| - 1], kids[|kids| - 1];
      ChoiceTypesFresh(pre, init);
      assert forall k :: k in kids <==> k in init || k == last;
      var t := ParamType(last.t, true);
      if t.Some? {
        ChoiceTypesMembers(pre, init, t.value);
        if FreshChoice(pre, init) && !FreshChoice(pre, kids) {
          assert t.value in pre && t.value != TBool;
          assert t.value !in AddChoiceTypes([], init);
        }
      }
    }
  }

  lemma FreshChoiceOfIds(pre: seq<Ty>, us: seq<Node>, vs: seq<Node>)
    requires Ids(us) == Ids(vs)
    ensures FreshChoice(pre, us) ==> FreshChoice(pre, vs)
  {
    assert |us| == |Ids(us)| == |Ids(vs)| == |vs|;
    if FreshChoice(pre, us) {
      forall i | 0 <= i < |vs| && vs[i].t in {ParamString, ParamIPv4, ParamIPv6}
        ensures ParamType(vs[i].t, true).value !in pre
      {
        assert Ids(us)[i] == Ids(vs)[i];
        SameId(us[i], vs[i]);
        assert us[i] in us;
      }
    }
  }

  /** Whether a path is fresh is settled by the tree that brought the path. */
  lemma {:induction false} MergeFreshAlong(u: Node, v: Node, pre: seq<Ty>, p: seq<string>)
    requires WellFormed(u) && WellFormed(v) && MergeNodes(u, v).Ok?
    ensures HasPath(u, p) && FreshAlong(u, pre, p) ==> FreshAlong(MergeNodes(u, v).value, pre, p)
    ensures HasPath(v, p) && FreshAlong(v, pre, p) ==> FreshAlong(MergeNodes(u, v).value, pre, p)
    decreases |p|
  {
    hide MergeAtoms, Override, WellFormed;
    var m := MergeNodes(u, v).value;
    if p != [] {
      MergeNodesLookup(u, v, p[0]);
      MergeKeepsHead(u, v);
      var a, b, r := Lookup(Alts(u), p[0]), Lookup(Alts(v), p[0]), Lookup(Alts(m), p[0]);
      if a.Some? {
        LookupWellFormed(u, p[0]);
      }
      if b.Some? {
        LookupWellFormed(v, p[0]);
      }
      if a.Some? && b.Some? {
        MergeAtomsNext(a.value, b.value);
      }
      if HeadOf(m).Explicit? {
        FreshChoiceOfIds(pre, u.children, m.children);
        FreshChoiceOfIds(pre, v.children, m.children);
      }
      if r.Some? {
        var ts := TypesAt(m, r.value, pre);
        if a.Some? {
          TypesAtSame(u, a.value, m, r.value, pre);
        }
        if b.Some? {
          TypesAtSame(v, b.value, m, r.value, pre);
        }
        if a.Some? && b.Some? && Next(a.value).Some? && Next(b.value).Some? {
          MergeFreshAlong(Next(a.value).value, Next(b.value).value, ts, p[1..]);
        }
      }
    }
  }

  lemma MergeKeepsFresh(u: Node, v: Node, pre: seq<Ty>)
    requires WellFormed(u) && WellFormed(v) && Fresh(u, pre) && Fresh(v, pre) && MergeNodes(u, v).Ok?
    ensures Fresh(MergeNodes(u, v).value, pre)
  {
    var m := MergeNodes(u, v).value;
    forall p | HasPath(m, p) ensures FreshAlong(m, pre, p) {
      MergeIsUnion(u, v, p);
      MergeFreshAlong(u, v, pre, p);
      assert HasPath(u, p) || HasPath(v, p);
    }
  }
}
