// The "?" help: the nodes that may come next, against the matcher.

module CommandHelp {
  import opened Prelude
  import opened Addresses
  import opened CommandTree
  import opened CommandMerge
  import opened CommandMatch
  import opened Lines

  /** isPrefixOfIPv6Address is a heuristic; it enters as a parameter. */
  type V6Prefix = string -> bool

  /** What getAutocompleteNodesFromTokens asks of the last field. */
  predicate AtomSoFar(n: Node, field: string, v6pre: V6Prefix) {
    match n.t
    case Literal => HasPrefix(n.value, field)
    case ParamString => true
    case ParamIPv4 => QuadSoFar(field)
    case ParamIPv6 => v6pre(field)
    case Choice => false
  }

  /** nodes, then those of more whose ids are new. */
  function AddNew(nodes: seq<Node>, more: seq<Node>): seq<Node> {
    if more == [] then nodes
    else
      var r, last := AddNew(nodes, more[..|more| - 1]), more[|more| - 1];
      if FindIndex(r, Id(last)) == -1 then r + [last] else r
  }

  lemma {:induction false} AddNewDistinct(nodes: seq<Node>, more: seq<Node>)
    requires DistinctIds(nodes)
    ensures DistinctIds(AddNew(nodes, more))
  {
    if more != [] {
      AddNewDistinct(nodes, more[..|more| - 1]);
    }
  }

  lemma NoIds(id: string)
    ensures !InIds([], id)
  {
  }

  lemma InIdsFound(ns: seq<Node>, id: string)
    ensures InIds(ns, id) <==> FindIndex(ns, id) != -1
  {
  }

  lemma {:induction false} AddNewIds(nodes: seq<Node>, more: seq<Node>, id: string)
    ensures InIds(AddNew(nodes, more), id) <==> InIds(nodes, id) || InIds(more, id)
  {
    hide InIds;
    if more == [] {
      NoIds(id);
    } else {
      var init, last := more[..|more| - 1], more[|more| - 1];
      var r := AddNew(nodes, init);
      AddNewIds(nodes, init, id);
      InIdsSnoc(init, last, id);
      assert init + [last] == more;
      InIdsSnoc(r, last, id);
      InIdsFound(r, Id(last));
    }
  }

  ghost predicate InIds(ns: seq<Node>, id: string) {
    exists i :: 0 <= i < |ns| && Id(ns[i]) == id
  }

  lemma InIdsSnoc(ns: seq<Node>, n: Node, id: string)
    ensures InIds(ns + [n], id) <==> InIds(ns, id) || id == Id(n)
  {
    var ms := ns + [n];
    assert ms[|ns|] == n;
    if InIds(ns, id) {
      var i :| 0 <= i < |ns| && Id(ns[i]) == id;
      assert ms[i] == ns[i];
    }
  }

  /** getAutocompleteNodesFromTokens. */
  function HelpNodes(n: Node, fields: seq<string>, v6: V6Parser, v6pre: V6Prefix): seq<Node>
    requires fields != []
    decreases |fields|, 2, 0
  {
    HelpAlts(n, |Alts(n)|, fields, v6, v6pre)
  }

  function HelpAlts(n: Node, k: nat, fields: seq<string>, v6: V6Parser, v6pre: V6Prefix): seq<Node>
    requires fields != [] && k <= |Alts(n)|
    decreases |fields|, 1, k
  {
    if k == 0 then []
    else AddNew(HelpAlts(n, k - 1, fields, v6, v6pre), HelpAtom(Alts(n)[k - 1], fields, v6, v6pre))
  }

  function HelpAtom(a: Node, fields: seq<string>, v6: V6Parser, v6pre: V6Prefix): seq<Node>
    requires fields != []
    decreases |fields|, 0, 0
  {
    if |fields| == 1 then (if AtomSoFar(a, fields[0], v6pre) then [a] else [])
    else if AtomArgs(a, fields[0], v6).None? then []
    else match Next(a)
      case None => []
      case Some(c) => HelpNodes(c, fields[1..], v6, v6pre)
  }

  // ---------------------------------------------------------------- help against matching

  ghost predicate Extends(id: string, field: string, v6: V6Parser) {
    exists ext :: AcceptsId(id, field + ext, v6)
  }

  /** p accepts all fields but the last, and the last as far as it goes. */
  ghost predicate CompletesTo(p: seq<string>, fields: seq<string>, v6: V6Parser) {
    && |p| == |fields| > 0
    && (forall i :: 0 <= i < |p| - 1 ==> AcceptsId(p[i], fields[i], v6))
    && Extends(p[|p| - 1], fields[|p| - 1], v6)
  }

  lemma SoFarIff(a: Node, field: string, v6: V6Parser, v6pre: V6Prefix)
    requires !a.t.Choice? && !a.t.ParamIPv6?
    ensures AtomSoFar(a, field, v6pre) <==> Extends(Id(a), field, v6)
  {
    forall ext ensures AcceptsId(Id(a), field + ext, v6) <==> AtomArgs(a, field + ext, v6).Some? {
      AtomAccepts(a, field + ext, v6);
    }
    assert field + "" == field;
    if AtomSoFar(a, field, v6pre) {
      if a.t.ParamIPv4? {
        QuadSoFarIff(field);
        var ext :| IsIPv4(field + ext);
        assert AcceptsId(Id(a), field + ext, v6);
      } else {
        assert AcceptsId(Id(a), field + "", v6);
      }
    }
    if Extends(Id(a), field, v6) {
      var ext :| AcceptsId(Id(a), field + ext, v6);
      assert AtomArgs(a, field + ext, v6).Some?;
      if a.t.ParamIPv4? {
        assert IsIPv4(field + ext);
        QuadSoFarIff(field);
      }
    }
  }

  lemma {:induction false} HelpDistinct(n: Node, k: nat, fields: seq<string>, v6: V6Parser, v6pre: V6Prefix)
    requires fields != [] && k <= |Alts(n)|
    ensures DistinctIds(HelpAlts(n, k, fields, v6, v6pre))
  {
    if k > 0 {
      HelpDistinct(n, k - 1, fields, v6, v6pre);
      AddNewDistinct(HelpAlts(n, k - 1, fields, v6, v6pre), HelpAtom(Alts(n)[k - 1], fields, v6, v6pre));
    }
  }

  lemma {:induction false} HelpAltsOrigin(n: Node, k: nat, fields: seq<string>, v6: V6Parser, v6pre: V6Prefix,
        id: string)
    requires fields != [] && k <= |Alts(n)|
    ensures InIds(HelpAlts(n, k, fields, v6, v6pre), id) <==>
      exists i :: 0 <= i < k && InIds(HelpAtom(Alts(n)[i], fields, v6, v6pre), id)
  {
    hide InIds, AddNew, HelpAtom;
    if k == 0 {
      NoIds(id);
    } else {
      HelpAltsOrigin(n, k - 1, fields, v6, v6pre, id);
      AddNewIds(HelpAlts(n, k - 1, fields, v6, v6pre), HelpAtom(Alts(n)[k - 1], fields, v6, v6pre), id);
    }
  }

  lemma {:induction false} HelpSound(n: Node, fields: seq<string>, v6: V6Parser, v6pre: V6Prefix, id: string)
    returns (p: seq<string>)
    requires WellFormed(n) && fields != [] && id != "param:ipv6"
    requires InIds(HelpNodes(n, fields, v6, v6pre), id)
    ensures HasPath(n, p) && CompletesTo(p, fields, v6) && p[|p| - 1] == id
    decreases |fields|, 1
  {
    hide WellFormedAtom, HelpAtom, AtomSoFar, AcceptsId, HasPath, AtPath, InIds;
    HelpAltsOrigin(n, |Alts(n)|, fields, v6, v6pre, id);
    var k :| 0 <= k < |Alts(n)| && InIds(HelpAtom(Alts(n)[k], fields, v6, v6pre), id);
    AltsWellFormed(n);
    p := HelpAtomSound(Alts(n)[k], fields, v6, v6pre, id);
    PathThrough(n, k, p);
  }

  /** A path through an alternative is a path of the node that offers it. */
  lemma PathThrough(n: Node, k: nat, p: seq<string>)
    requires WellFormed(n) && k < |Alts(n)| && p != [] && p[0] == Id(Alts(n)[k])
    requires |p| > 1 ==> Next(Alts(n)[k]).Some? && HasPath(Next(Alts(n)[k]).value, p[1..])
    ensures HasPath(n, p)
  {
    AltsWellFormed(n);
    LookupIndex(Alts(n), k);
  }

  lemma {:induction false} HelpAtomSound(a: Node, fields: seq<string>, v6: V6Parser, v6pre: V6Prefix, id: string)
    returns (p: seq<string>)
    requires WellFormedAtom(a) && fields != [] && id != "param:ipv6"
    requires InIds(HelpAtom(a, fields, v6, v6pre), id)
    ensures CompletesTo(p, fields, v6) && p[0] == Id(a) && p[|p| - 1] == id
    ensures |p| > 1 ==> Next(a).Some? && HasPath(Next(a).value, p[1..])
    decreases |fields|, 0
  {
    if |fields| == 1 {
      assert Id(a) == id;
      SameId(a, a.(t := ParamIPv6));
      SoFarIff(a, fields[0], v6, v6pre);
      p := [id];
    } else {
      AtomAccepts(a, fields[0], v6);
      var q := HelpSound(Next(a).value, fields[1..], v6, v6pre, id);
      p := [Id(a)] + q;
      assert p[1..] == q;
      CompletesCons(Id(a), q, fields, v6);
    }
  }

  lemma CompletesCons(id: string, q: seq<string>, fields: seq<string>, v6: V6Parser)
    requires |fields| > 1 && CompletesTo(q, fields[1..], v6) && AcceptsId(id, fields[0], v6)
    ensures CompletesTo([id] + q, fields, v6)
  {
    var p := [id] + q;
    assert forall i :: 1 <= i < |p| ==> p[i] == q[i - 1] && fields[i] == fields[1..][i - 1];
  }

  lemma {:induction false} HelpComplete(n: Node, fields: seq<string>, v6: V6Parser, v6pre: V6Prefix, p: seq<string>)
    requires WellFormed(n) && fields != [] && HasPath(n, p) && CompletesTo(p, fields, v6)
    requires p[|p| - 1] != "param:ipv6"
    ensures InIds(HelpNodes(n, fields, v6, v6pre), p[|p| - 1])
    decreases |fields|
  {
    hide WellFormedAtom, QuadSoFar, AcceptsId, WellFormed;
    var id := p[|p| - 1];
    var k := FindIndex(Alts(n), p[0]);
    var a := Alts(n)[k];
    LookupWellFormed(n, p[0]);
    if |fields| == 1 {
      SameId(a, a.(t := ParamIPv6));
      SoFarIff(a, fields[0], v6, v6pre);
      assert HelpAtom(a, fields, v6, v6pre)[0] == a;
    } else {
      AtomAccepts(a, fields[0], v6);
      assert AcceptsId(p[0], fields[0], v6);
      var c := Next(a).value;
      assert forall i :: 0 <= i < |p| - 1 ==> p[1..][i] == p[i + 1] && fields[1..][i] == fields[i + 1];
      HelpComplete(c, fields[1..], v6, v6pre, p[1..]);
    }
    assert InIds(HelpAtom(a, fields, v6, v6pre), id);
    HelpAltsOrigin(n, |Alts(n)|, fields, v6, v6pre, id);
  }

  lemma CompletesIff(p: seq<string>, fields: seq<string>, v6: V6Parser)
    requires fields != []
    ensures CompletesTo(p, fields, v6) <==> exists ext :: AcceptsPath(p, GrowLast(fields, ext), v6)
  {
    var k := |fields| - 1;
    if CompletesTo(p, fields, v6) {
      var ext :| AcceptsId(p[k], fields[k] + ext, v6);
      assert AcceptsPath(p, GrowLast(fields, ext), v6);
    }
    forall ext | AcceptsPath(p, GrowLast(fields, ext), v6) ensures CompletesTo(p, fields, v6) {
      var line := GrowLast(fields, ext);
      assert line[k] == fields[k] + ext && forall i :: 0 <= i < k ==> line[i] == fields[i];
    }
  }

  /** Some match of the line extended by ext ends in a node with this id. */
  ghost predicate EndsMatch(n: Node, fields: seq<string>, ext: string, v6: V6Parser, id: string)
    requires fields != []
  {
    exists m :: m in MatchNodes(n, GrowLast(fields, ext), v6) && Id(Last(m).node) == id
  }

  /** "?" lists, each once, exactly the ids that end a match of the line with its last field
      suitably extended (for IPv6 parameters, which are guessed at, nothing is claimed). */
  lemma HelpIsMatching(n: Node, fields: seq<string>, v6: V6Parser, v6pre: V6Prefix, id: string)
    requires WellFormed(n) && fields != [] && id != "param:ipv6"
    ensures DistinctIds(HelpNodes(n, fields, v6, v6pre))
    ensures InIds(HelpNodes(n, fields, v6, v6pre), id) <==> exists ext :: EndsMatch(n, fields, ext, v6, id)
  {
    HelpDistinct(n, |Alts(n)|, fields, v6, v6pre);
    if InIds(HelpNodes(n, fields, v6, v6pre), id) {
      var ext := HelpHasMatch(n, fields, v6, v6pre, id);
    }
    forall ext | EndsMatch(n, fields, ext, v6, id) ensures InIds(HelpNodes(n, fields, v6, v6pre), id) {
      MatchHasHelp(n, fields, ext, v6, v6pre, id);
    }
  }

  lemma HelpHasMatch(n: Node, fields: seq<string>, v6: V6Parser, v6pre: V6Prefix, id: string) returns (ext: string)
    requires WellFormed(n) && fields != [] && id != "param:ipv6"
    requires InIds(HelpNodes(n, fields, v6, v6pre), id)
    ensures EndsMatch(n, fields, ext, v6, id)
  {
    var p := HelpSound(n, fields, v6, v6pre, id);
    CompletesIff(p, fields, v6);
    ext :| AcceptsPath(p, GrowLast(fields, ext), v6);
    var m := MatchComplete(n, GrowLast(fields, ext), v6, p);
    LastId(m);
  }

  lemma MatchHasHelp(n: Node, fields: seq<string>, ext: string, v6: V6Parser, v6pre: V6Prefix, id: string)
    requires WellFormed(n) && fields != [] && id != "param:ipv6"
    requires EndsMatch(n, fields, ext, v6, id)
    ensures InIds(HelpNodes(n, fields, v6, v6pre), id)
  {
    var line := GrowLast(fields, ext);
    var m :| m in MatchNodes(n, line, v6) && Id(Last(m).node) == id;
    MatchAltsGood(n, |Alts(n)|, line, v6);
    assert GoodMatch(n, line, v6, m);
    LastId(m);
    CompletesIff(ChainIds(m), fields, v6);
    HelpComplete(n, fields, v6, v6pre, ChainIds(m));
  }

  lemma {:induction false} LastId(m: Match)
    ensures ChainIds(m)[|ChainIds(m)| - 1] == Id(Last(m).node)
  {
    if m.next.Some? {
      LastId(m.next.value);
    }
  }

  // ---------------------------------------------------------------- the loops

  method AppendNew(nodes: seq<Node>, opts: seq<Node>) returns (r: seq<Node>)
    ensures r == AddNew(nodes, opts)
  {
    r := nodes;
    for i := 0 to |opts|
      invariant r == AddNew(nodes, opts[..i])
    {
      assert opts[..i + 1][..i] == opts[..i];
      if FindIndex(r, Id(opts[i])) == -1 {
        r := r + [opts[i]];
      }
    }
    assert opts[..|opts|] == opts;
  }

  method GetAutocompleteNodesFromTokens(n: Node, fields: seq<string>, v6: V6Parser, v6pre: V6Prefix)
    returns (nodes: seq<Node>)
    requires WellFormed(n) && fields != []
    ensures nodes == HelpNodes(n, fields, v6, v6pre)
    decreases |fields|, n
  {
    hide QuadSoFar, AddNew, DistinctIds;
    nodes := [];
    if n.t.Choice? {
      assert WellFormedAlts(n.children);
      for i := 0 to |n.children|
        invariant nodes == HelpAlts(n, i, fields, v6, v6pre)
      {
        assert WellFormedAtom(n.children[i]);
        var opts := GetAutocompleteNodesFromTokens(n.children[i], fields, v6, v6pre);
        AtomHelp(n.children[i], fields, v6, v6pre);
        nodes := AppendNew(nodes, opts);
      }
    } else {
      AtomHelp(n, fields, v6, v6pre);
      if |fields| == 1 {
        if AtomSoFar(n, fields[0], v6pre) {
          nodes := [n];
        }
        return;
      }
      if AtomArgs(n, fields[0], v6).None? || |n.children| == 0 {
        return [];
      }
      var opts := GetAutocompleteNodesFromTokens(n.children[0], fields[1..], v6, v6pre);
      HelpDistinct(n.children[0], |Alts(n.children[0])|, fields[1..], v6, v6pre);
      AddNewToNone(opts);
      nodes := AppendNew(nodes, opts);
    }
  }

  lemma {:induction false} AddNewToNone(ns: seq<Node>)
    requires DistinctIds(ns)
    ensures AddNew([], ns) == ns
  {
    if ns != [] {
      var init, last := ns[..|ns| - 1], ns[|ns| - 1];
      assert DistinctIds(init);
      AddNewToNone(init);
      assert FindIndex(init, Id(last)) == -1;
      assert init + [last] == ns;
    }
  }

  lemma AtomHelp(a: Node, fields: seq<string>, v6: V6Parser, v6pre: V6Prefix)
    requires WellFormedAtom(a) && fields != []
    ensures HelpNodes(a, fields, v6, v6pre) == HelpAtom(a, fields, v6, v6pre)
  {
    var ns := HelpAtom(a, fields, v6, v6pre);
    assert Alts(a) == [a];
    if |fields| > 1 && Next(a).Some? {
      var c := Next(a).value;
      HelpDistinct(c, |Alts(c)|, fields[1..], v6, v6pre);
      assert DistinctIds(HelpNodes(c, fields[1..], v6, v6pre));
    }
    assert DistinctIds(ns);
    AddNewToNone(ns);
    assert HelpAlts(a, 0, fields, v6, v6pre) == [];
  }
}
