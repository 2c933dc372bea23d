// mergeWithPath as the original runs it: child by child, with the pass that re-links the
// continuation shared by the options of an explicit choice. It computes MergeNodes.

module CommandMerger {
  import opened Prelude
  import opened CommandTree
  import opened CommandMerge

  predicate SameAtom(n1: Node, n2: Node) {
    !n1.t.Choice? && !n2.t.Choice? && Id(n1) == Id(n2)
  }

  method MergeWithPath(n1: Node, n2: Node) returns (r: Result<Node>)
    requires WellFormed(n1) && WellFormed(n2)
    ensures r == MergeNodes(n1, n2)
    decreases Size(n2), if SameAtom(n1, n2) then 0 else 3
  {
    assert SizeAll([n2]) == Size(n2) + SizeAll([]);
    if n1.t.Choice? && n2.t.Choice? {
      r := MergeChoices(n1, n2);
    } else if n1.t.Choice? {
      if n1.explicitChoice {
        return Err;
      }
      r := MergeChoices(n1, ImplicitChoice([n2]));
    } else if n2.t.Choice? {
      if n2.explicitChoice {
        return Err;
      }
      r := MergeChoices(ImplicitChoice([n1]), n2);
    } else if Id(n1) == Id(n2) {
      var a := Override(AttrsOf(n1), AttrsOf(n2));
      var merged := WithAttrs(n1, a);
      if |n1.children| == 1 && |n2.children| == 1 {
        var c := MergeWithPath(n1.children[0], n2.children[0]);
        if c.Err? {
          return Err;
        }
        merged := merged.(children := [c.value]);
      } else if |n2.children| == 1 {
        merged := merged.(children := n1.children + [n2.children[0]]);
        assert merged.children == [n2.children[0]];
      }
      r := Ok(merged);
    } else {
      r := MergeChoices(ImplicitChoice([n1]), ImplicitChoice([n2]));
    }
  }

  method MergeChoices(n1: Node, n2: Node) returns (r: Result<Node>)
    requires WellFormed(n1) && WellFormed(n2) && n1.t.Choice? && n2.t.Choice?
    ensures r == MergeNodes(n1, n2)
    decreases SizeAll(n2.children), 2
  {
    hide MergeAtoms;
    if n1.explicitChoice && n2.explicitChoice {
      if |n1.children| != |n2.children| {
        assert |Ids(n1.children)| != |Ids(n2.children)|;
        return Err;
      }
      for i := 0 to |n1.children|
        invariant forall j :: 0 <= j < i ==> Id(n1.children[j]) == Id(n2.children[j])
      {
        if Id(n1.children[i]) != Id(n2.children[i]) {
          assert Ids(n1.children)[i] != Ids(n2.children)[i];
          return Err;
        }
      }
      assert Ids(n1.children) == Ids(n2.children);
      r := MergeExplicit(n1, n2);
    } else if n1.explicitChoice || n2.explicitChoice {
      return Err;
    } else {
      var kids := MergeImplicit(n1.children, n2.children);
      r := match kids case Err => Err case Ok(ns) => Ok(n1.(children := ns));
    }
  }

  /** The alternatives of two implicit choices. */
  method MergeImplicit(us: seq<Node>, vs: seq<Node>) returns (r: Result<seq<Node>>)
    requires WellFormedAlts(us) && WellFormedAlts(vs)
    ensures r == MergeAlts(us, vs)
    decreases SizeAll(vs), 1, 0
  {
    var kids := us;
    for k := 0 to |vs|
      invariant WellFormedAlts(kids)
      invariant MergeAlts(kids, vs[k..]) == MergeAlts(us, vs)
    {
      var child2 := vs[k];
      assert vs[k..][0] == child2 && vs[k..][1..] == vs[k + 1..];
      var i := FindIndex(kids, Id(child2));
      if i == -1 {
        kids := kids + [child2];
      } else {
        SameId(kids[i], child2);
        assert WellFormedAtom(kids[i]) && WellFormedAtom(child2);
        var merged := MergeWithPath(kids[i], child2);
        if merged.Err? {
          return Err;
        }
        MergeAtomsId(kids[i], child2);
        MergeAtomsWellFormed(kids[i], child2);
        kids := kids[i := merged.value];
      }
    }
    r := Ok(kids);
  }

  /** The state of an option not yet merged: as it was, or already given the merged
      continuation of the options before it. */
  ghost predicate Relinked(n1: Node, n2: Node, kid: Node, j: nat)
    requires j < |n1.children| && n2.children != []
  {
    var m := MergeAtoms(n1.children[0], n2.children[0]);
    || kid == n1.children[j]
    || (m.Ok? && m.value.children != [] && n1.children[j].children != [] &&
        kid == n1.children[j].(children := [m.value.children[0]]))
  }

  ghost predicate SameOptions(n1: Node, n2: Node) {
    && WellFormed(n1) && WellFormed(n2) && n1.t.Choice? && n2.t.Choice?
    && n1.explicitChoice && n2.explicitChoice && Ids(n1.children) == Ids(n2.children)
  }

  lemma OptionFacts(n1: Node, n2: Node, j: nat)
    requires SameOptions(n1, n2) && j < |n1.children|
    ensures |n1.children| == |n2.children|
    ensures WellFormedAtom(n1.children[j]) && WellFormedAtom(n2.children[j])
    ensures Id(n1.children[j]) == Id(n2.children[j])
    ensures n1.children[j].children == n1.children[0].children
    ensures n2.children[j].children == n2.children[0].children
    ensures Lookup(n1.children, Id(n2.children[j])) == Some(n1.children[j])
  {
    AltsWellFormed(n1);
    AltsWellFormed(n2);
    assert |Ids(n1.children)| == |Ids(n2.children)|;
    assert Ids(n1.children)[j] == Ids(n2.children)[j];
    assert n1.children[j] in n1.children && n2.children[j] in n2.children;
    LookupIndex(n1.children, j);
  }

  /** Re-linking early is harmless: the later merge of the option gives the same result. */
  lemma RelinkedMerge(n1: Node, n2: Node, kid: Node, j: nat)
    requires SameOptions(n1, n2) && j < |n1.children| && Relinked(n1, n2, kid, j)
    ensures Id(kid) == Id(n1.children[j]) == Id(n2.children[j])
    ensures WellFormedAtom(kid) && WellFormedAtom(n2.children[j])
    ensures MergeAtoms(kid, n2.children[j]) == MergeAtoms(n1.children[j], n2.children[j])
  {
    var a, b, a0, b0 := n1.children[j], n2.children[j], n1.children[0], n2.children[0];
    OptionFacts(n1, n2, j);
    OptionFacts(n1, n2, 0);
    if kid != a {
      MergeAtomsWellFormed(a0, b0);
      MergeAtomsContinuation(a, b, a0, b0);
      if b.children != [] {
        MergeIsIdempotent(a.children[0], b.children[0]);
      }
    }
  }

  /** Merging two explicit choices fails exactly when merging some options does. */
  lemma OptionsSucceed(n1: Node, n2: Node)
    requires SameOptions(n1, n2)
    ensures MergeAlts(n1.children, n2.children).Ok? <==>
      forall j :: 0 <= j < |n1.children| ==> MergeAtoms(n1.children[j], n2.children[j]).Ok?
  {
    var us, vs := n1.children, n2.children;
    AltsWellFormed(n1);
    AltsWellFormed(n2);
    OptionFacts(n1, n2, 0);
    forall j | 0 <= j < |vs|
      ensures MergeEntries(Lookup(us, Id(vs[j])), Some(vs[j])).Ok? <==> MergeAtoms(us[j], vs[j]).Ok?
    {
      OptionFacts(n1, n2, j);
    }
    MergeAltsOk(us, vs);
  }

  lemma OptionsKeepIds(n1: Node, n2: Node)
    requires SameOptions(n1, n2) && MergeAlts(n1.children, n2.children).Ok?
    ensures var rs := MergeAlts(n1.children, n2.children).value;
      DistinctIds(rs) && Ids(rs) == Ids(n1.children) && |rs| == |n1.children|
  {
    var us, vs := n1.children, n2.children;
    AltsWellFormed(n1);
    AltsWellFormed(n2);
    OptionFacts(n1, n2, 0);
    forall j | 0 <= j < |vs| ensures Lookup(us, Id(vs[j])).Some? {
      OptionFacts(n1, n2, j);
    }
    MergeAltsIds(us, vs);
    MergeAltsLookup(us, vs, "");
    assert |MergeAlts(us, vs).value| == |Ids(MergeAlts(us, vs).value)|;
  }

  /** Merging option by option is merging the choices. */
  lemma MergeOptionwise(n1: Node, n2: Node, kids: seq<Node>)
    requires SameOptions(n1, n2) && |kids| == |n1.children|
    requires forall j :: 0 <= j < |kids| ==> MergeAtoms(n1.children[j], n2.children[j]) == Ok(kids[j])
    ensures MergeAlts(n1.children, n2.children) == Ok(kids)
  {
    OptionsSucceed(n1, n2);
    OptionsKeepIds(n1, n2);
    var rs := MergeAlts(n1.children, n2.children).value;
    forall j | 0 <= j < |rs| ensures rs[j] == kids[j] {
      MergedOption(n1, n2, rs, j);
    }
    assert rs == kids;
  }

  /** The options before k are merged; the others are as they were or re-linked. */
  ghost predicate MergedUpTo(n1: Node, n2: Node, kids: seq<Node>, k: nat)
    requires SameOptions(n1, n2)
  {
    && |kids| == |n1.children| == |n2.children|
    && (forall j :: 0 <= j < k && j < |kids| ==> MergeAtoms(n1.children[j], n2.children[j]) == Ok(kids[j]))
    && (forall j :: k <= j < |kids| ==> n2.children != [] && Relinked(n1, n2, kids[j], j))
  }

  /** Two explicit choices with the same options. After an option is merged, every option
      whose continuation has the id of the merged continuation is given that one. */
  method MergeExplicit(n1: Node, n2: Node) returns (r: Result<Node>)
    requires SameOptions(n1, n2)
    ensures r == MergeNodes(n1, n2)
    decreases SizeAll(n2.children), 1, 1
  {
    assert |n1.children| == |Ids(n1.children)| == |n2.children|;
    var kids := n1.children;
    for k := 0 to |n2.children|
      invariant MergedUpTo(n1, n2, kids, k)
    {
      var merged := MergeOption(n1, n2, kids, k);
      if merged.Err? {
        OptionsSucceed(n1, n2);
        return Err;
      }
      kids := merged.value;
    }
    MergeOptionwise(n1, n2, kids);
    r := Ok(n1.(children := kids));
  }

  method MergeOption(n1: Node, n2: Node, kids: seq<Node>, k: nat) returns (r: Result<seq<Node>>)
    requires SameOptions(n1, n2) && k < |n2.children| && MergedUpTo(n1, n2, kids, k)
    ensures r.Ok? <==> MergeAtoms(n1.children[k], n2.children[k]).Ok?
    ensures r.Ok? ==> MergedUpTo(n1, n2, r.value, k + 1)
    decreases SizeAll(n2.children), 1, 0
  {
    hide MergeAtoms, Relinked, WellFormed, SameOptions;
    var child2 := n2.children[k];
    forall j | 0 <= j < |kids| ensures Id(kids[j]) == Id(n1.children[j]) == Id(n2.children[j]) {
      KidId(n1, n2, kids[j], k, j);
    }
    OptionsDistinct(n1, n2);
    var i := FindIndex(kids, Id(child2));
    assert i == k;
    RelinkedMerge(n1, n2, kids[k], k);
    var merged := MergeWithPath(kids[i], child2);
    if merged.Err? {
      return Err;
    }
    var after := kids[i := merged.value];

    if |child2.children| == 1 {
      MergedContinuation(n1, n2, k);
      ghost var before := after;
      after := Relink(after, after[i].children[0]);
      forall l | 0 <= l < |kids|
        ensures l <= k ==> MergeAtoms(n1.children[l], n2.children[l]) == Ok(after[l])
        ensures k < l ==> Relinked(n1, n2, after[l], l)
      {
        KeepsRelinked(n1, n2, before[l], after[l], before[k].children[0], k, l);
      }
    }
    r := Ok(after);
  }

  lemma OptionsDistinct(n1: Node, n2: Node)
    requires SameOptions(n1, n2)
    ensures forall i, j :: 0 <= i < |n1.children| && 0 <= j < |n1.children| && i != j ==>
      Id(n1.children[i]) != Id(n1.children[j])
  {
    AltsWellFormed(n1);
  }

  /** Gives every node whose child has the id of grandchild that child. */
  method Relink(nodes: seq<Node>, grandchild: Node) returns (kids: seq<Node>)
    ensures |kids| == |nodes|
    ensures forall l :: 0 <= l < |nodes| ==> kids[l] == RelinkNode(nodes[l], grandchild)
  {
    kids := nodes;
    for j := 0 to |kids|
      invariant |kids| == |nodes|
      invariant forall l :: 0 <= l < j ==> kids[l] == RelinkNode(nodes[l], grandchild)
      invariant forall l :: j <= l < |nodes| ==> kids[l] == nodes[l]
    {
      if |kids[j].children| > 0 && Id(kids[j].children[0]) == Id(grandchild) {
        kids := kids[j := kids[j].(children := kids[j].children[0 := grandchild])];
      }
    }
  }

  function RelinkNode(n: Node, grandchild: Node): Node {
    if |n.children| > 0 && Id(n.children[0]) == Id(grandchild)
    then n.(children := n.children[0 := grandchild])
    else n
  }

  lemma MergedContinuation(n1: Node, n2: Node, k: nat)
    requires SameOptions(n1, n2) && k < |n1.children| && k < |n2.children| && |n2.children[k].children| == 1
    requires MergeAtoms(n1.children[k], n2.children[k]).Ok?
    ensures |MergeAtoms(n1.children[k], n2.children[k]).value.children| == 1
  {
  }

  lemma KidId(n1: Node, n2: Node, kid: Node, k: nat, j: nat)
    requires SameOptions(n1, n2) && j < |n1.children|
    requires j < k ==> MergeAtoms(n1.children[j], n2.children[j]) == Ok(kid)
    requires k <= j ==> Relinked(n1, n2, kid, j)
    ensures Id(kid) == Id(n1.children[j]) == Id(n2.children[j])
  {
    OptionFacts(n1, n2, j);
    if j < k {
      MergeAtomsId(n1.children[j], n2.children[j]);
    } else {
      RelinkedMerge(n1, n2, kid, j);
    }
  }

  lemma KeepsRelinked(n1: Node, n2: Node, before: Node, kid: Node, grandchild: Node, k: nat, l: nat)
    requires SameOptions(n1, n2) && k < |n1.children| && l < |n1.children| && |n2.children[k].children| == 1
    requires MergeAtoms(n1.children[k], n2.children[k]).Ok?
    requires var m := MergeAtoms(n1.children[k], n2.children[k]).value; m.children != [] && m.children[0] == grandchild
    requires l <= k ==> MergeAtoms(n1.children[l], n2.children[l]) == Ok(before)
    requires k < l ==> Relinked(n1, n2, before, l)
    requires kid == RelinkNode(before, grandchild)
    ensures l <= k ==> MergeAtoms(n1.children[l], n2.children[l]) == Ok(kid)
    ensures k < l ==> Relinked(n1, n2, kid, l)
  {
    var us, vs := n1.children, n2.children;
    OptionFacts(n1, n2, k);
    OptionFacts(n1, n2, l);
    MergeAtomsContinuation(us[k], vs[k], us[0], vs[0]);
    MergeAtomsContinuation(us[k], vs[k], us[l], vs[l]);
    MergeAtomsNext(us[l], vs[l]);
    if kid != before && k < l {
      assert before.children[0 := grandchild] == [grandchild];
    }
  }
}
