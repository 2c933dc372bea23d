// Merging command trees. MergeNodes says what a merge is; the lemmas say what it means for
// the commands of the tree; the method MergeWithPath, which follows the original step by
// step, is proved to compute it.

module CommandMerge {
  import opened Prelude
  import opened CommandTree

  // ---------------------------------------------------------------- specification

  /** b's attributes where they are set, otherwise a's. */
  function Override(a: Attrs, b: Attrs): Attrs {
    Attrs(
      if b.description != "" then b.description else a.description,
      if b.handler.Some? then b.handler else a.handler,
      if b.completer.Some? then b.completer else a.completer)
  }

  function WithAttrs(n: Node, a: Attrs): Node {
    n.(description := a.description, handler := a.handler, completer := a.completer)
  }

  function ImplicitChoice(alts: seq<Node>): Node {
    Node(Choice, "", "", None, None, alts, [], false)
  }

  /** The merge of two trees: an error if one of them is an explicit choice and the other is
      not the same explicit choice, otherwise the alternatives of both. */
  function MergeNodes(u: Node, v: Node): Result<Node>
    decreases Size(v), 3
  {
    if HeadOf(u) != HeadOf(v) then Err
    else if !u.t.Choice? && !v.t.Choice? && Id(u) == Id(v) then MergeAtoms(u, v)
    else match MergeAlts(Alts(u), Alts(v))
      case Err => Err
      case Ok(alts) => Ok(if u.t.Choice? then u.(children := alts) else ImplicitChoice(alts))
  }

  /** The merge of two lists of alternatives: those of us, each merged with its namesake in
      vs, then the rest of vs. */
  function MergeAlts(us: seq<Node>, vs: seq<Node>): Result<seq<Node>>
    decreases SizeAll(vs), 2
  {
    if vs == [] then Ok(us)
    else match MergeAlt(us, vs[0])
      case Err => Err
      case Ok(us') => MergeAlts(us', vs[1..])
  }

  function MergeAlt(us: seq<Node>, v: Node): Result<seq<Node>>
    decreases Size(v), 1
  {
    var i := FindIndex(us, Id(v));
    if i == -1 then Ok(us + [v])
    else match MergeAtoms(us[i], v)
      case Err => Err
      case Ok(m) => Ok(us[i := m])
  }

  /** The merge of two atoms with the same id. */
  function MergeAtoms(a: Node, b: Node): Result<Node>
    decreases Size(b), 0
  {
    var a' := WithAttrs(a, Override(AttrsOf(a), AttrsOf(b)));
    if b.children == [] then Ok(a')
    else if a.children == [] then Ok(a'.(children := [b.children[0]]))
    else match MergeNodes(a.children[0], b.children[0])
      case Err => Err
      case Ok(c) => Ok(a'.(children := [c]))
  }

  // ---------------------------------------------------------------- lookups in a merge

  lemma MergeAtomsId(a: Node, b: Node)
    requires MergeAtoms(a, b).Ok?
    ensures var m := MergeAtoms(a, b).value;
      Id(m) == Id(a) && m.t == a.t && AttrsOf(m) == Override(AttrsOf(a), AttrsOf(b))
  {
  }

  /** Where both atoms continue, the merged atom continues with the merge. */
  lemma MergeAtomsNext(a: Node, b: Node)
    requires |a.children| <= 1 && |b.children| <= 1 && MergeAtoms(a, b).Ok?
    ensures var m := MergeAtoms(a, b).value;
      && Id(m) == Id(a) && m.t == a.t && AttrsOf(m) == Override(AttrsOf(a), AttrsOf(b))
      && (Next(a).None? ==> Next(m) == Next(b))
      && (Next(b).None? ==> Next(m) == Next(a))
      && (Next(a).Some? && Next(b).Some? ==>
            && MergeNodes(Next(a).value, Next(b).value).Ok?
            && Next(m) == Some(MergeNodes(Next(a).value, Next(b).value).value))
  {
  }

  /** What a merge of alternatives holds under one id. */
  function MergeEntries(a: Option<Node>, b: Option<Node>): Result<Option<Node>> {
    if a.None? then Ok(b)
    else if b.None? then Ok(a)
    else match MergeAtoms(a.value, b.value)
      case Err => Err
      case Ok(m) => Ok(Some(m))
  }

  lemma MergeAltLookup(us: seq<Node>, v: Node, id: string)
    requires DistinctIds(us) && MergeAlt(us, v).Ok?
    ensures var rs := MergeAlt(us, v).value;
      && DistinctIds(rs)
      && Ok(Lookup(rs, id)) == MergeEntries(Lookup(us, id), if id == Id(v) then Some(v) else None)
  {
    hide MergeAtoms;
    var i := FindIndex(us, Id(v));
    var rs := MergeAlt(us, v).value;
    if i == -1 {
      assert rs == us + [v];
      assert FindIndex(us, id) != -1 ==> rs[FindIndex(us, id)] == us[FindIndex(us, id)];
      assert rs[|us|] == v;
    } else {
      MergeAtomsId(us[i], v);
      assert forall j :: 0 <= j < |us| ==> Id(rs[j]) == Id(us[j]);
      assert FindIndex(rs, id) == FindIndex(us, id);
    }
  }

  /** Merging lists of alternatives is merging the entries under each id. */
  lemma {:induction false} MergeAltsLookup(us: seq<Node>, vs: seq<Node>, id: string)
    requires DistinctIds(us) && DistinctIds(vs) && MergeAlts(us, vs).Ok?
    ensures var rs := MergeAlts(us, vs).value;
      && DistinctIds(rs)
      && Ok(Lookup(rs, id)) == MergeEntries(Lookup(us, id), Lookup(vs, id))
    decreases |vs|
  {
    if vs != [] {
      var us' := MergeAlt(us, vs[0]).value;
      MergeAltLookup(us, vs[0], id);
      MergeAltsLookup(us', vs[1..], id);
    }
  }

  /** Merging lists of alternatives fails exactly when merging some pair of namesakes does. */
  lemma {:induction false} MergeAltsOk(us: seq<Node>, vs: seq<Node>)
    requires DistinctIds(us) && DistinctIds(vs)
    ensures MergeAlts(us, vs).Ok? <==>
      forall j :: 0 <= j < |vs| ==> MergeEntries(Lookup(us, Id(vs[j])), Some(vs[j])).Ok?
    decreases |vs|
  {
    if vs != [] && MergeAlt(us, vs[0]).Ok? {
      var us' := MergeAlt(us, vs[0]).value;
      forall j | 0 <= j < |vs|
        ensures j > 0 ==> Lookup(us', Id(vs[j])) == Lookup(us, Id(vs[j]))
        ensures DistinctIds(us')
      {
        MergeAltLookup(us, vs[0], Id(vs[j]));
      }
      MergeAltsOk(us', vs[1..]);
      assert forall j :: 1 <= j < |vs| ==> vs[j] == vs[1..][j - 1];
      assert forall j :: 0 <= j < |vs[1..]| ==> vs[1..][j] == vs[j + 1];
    }
  }

  /** A merge of alternatives keeps those of us in place and appends only new ids. */
  lemma {:induction false} MergeAltsIds(us: seq<Node>, vs: seq<Node>)
    requires DistinctIds(us) && DistinctIds(vs) && MergeAlts(us, vs).Ok?
    ensures Ids(us) <= Ids(MergeAlts(us, vs).value)
    ensures (forall j :: 0 <= j < |vs| ==> Lookup(us, Id(vs[j])).Some?) ==>
      Ids(MergeAlts(us, vs).value) == Ids(us)
    decreases |vs|
  {
    if vs != [] {
      var us' := MergeAlt(us, vs[0]).value;
      var i := FindIndex(us, Id(vs[0]));
      if i != -1 {
        MergeAtomsId(us[i], vs[0]);
      }
      assert Ids(us) <= Ids(us');
      MergeAltLookup(us, vs[0], "");
      MergeAltsIds(us', vs[1..]);
      if forall j :: 0 <= j < |vs| ==> Lookup(us, Id(vs[j])).Some? {
        assert Lookup(us, Id(vs[0])).Some?;
        assert Ids(us') == Ids(us);
        forall j | 0 <= j < |vs[1..]| ensures Lookup(us', Id(vs[1..][j])).Some? {
          MergeAltLookup(us, vs[0], Id(vs[1..][j]));
          assert Lookup(us, Id(vs[j + 1])).Some?;
        }
      }
    }
  }

  /** The alternatives of a merged tree, id by id. */
  lemma MergeNodesLookup(u: Node, v: Node, id: string)
    requires WellFormed(u) && WellFormed(v) && MergeNodes(u, v).Ok?
    ensures var m := MergeNodes(u, v).value;
      && DistinctIds(Alts(m))
      && Ok(Lookup(Alts(m), id)) == MergeEntries(Lookup(Alts(u), id), Lookup(Alts(v), id))
  {
    if !u.t.Choice? && !v.t.Choice? && Id(u) == Id(v) {
      MergeAtomsId(u, v);
      var m := MergeNodes(u, v).value;
      assert Alts(m) == [m] && Alts(u) == [u] && Alts(v) == [v];
    } else {
      MergeAltsLookup(Alts(u), Alts(v), id);
    }
  }

  // ---------------------------------------------------------------- main theorems

  /** b if it is set, otherwise a; where both are set, b's attributes win. */
  function OverrideAt(a: Option<Attrs>, b: Option<Attrs>): Option<Attrs> {
    if a.None? then b else if b.None? then a else Some(Override(a.value, b.value))
  }

  /** Merge is right-biased union: under every id path the merged tree holds what the two
      trees hold there, and nothing else. */
  lemma {:induction false} MergeIsUnion(u: Node, v: Node, p: seq<string>)
    requires WellFormed(u) && WellFormed(v) && MergeNodes(u, v).Ok?
    ensures AtPath(MergeNodes(u, v).value, p) == OverrideAt(AtPath(u, p), AtPath(v, p))
    decreases |p|
  {
    hide WellFormed, MergeAtoms, MergeNodes, Override, AttrsOf;
    if p != [] {
      MergeNodesLookup(u, v, p[0]);
      var a, b := Lookup(Alts(u), p[0]), Lookup(Alts(v), p[0]);
      if a.Some? && b.Some? {
        LookupWellFormed(u, p[0]);
        LookupWellFormed(v, p[0]);
        MergeAtomsNext(a.value, b.value);
        if |p| > 1 && Next(a.value).Some? && Next(b.value).Some? {
          MergeIsUnion(Next(a.value).value, Next(b.value).value, p[1..]);
        }
      }
    }
  }

  /** r is a with what b sets: where both set a field, b's value replaces a's. */
  ghost predicate Overwrites(a: Node, b: Node, r: Node) {
    && r.t == a.t && r.value == a.value && r.paramTypes == a.paramTypes && r.explicitChoice == a.explicitChoice
    && (b.description == "" ==> r.description == a.description)
    && (b.description != "" ==> r.description == b.description)
    && (b.handler == None ==> r.handler == a.handler)
    && (b.handler != None ==> r.handler == b.handler)
    && (b.completer == None ==> r.completer == a.completer)
    && (b.completer != None ==> r.completer == b.completer)
  }

  lemma AtomsOverwrite(a: Node, b: Node)
    requires MergeAtoms(a, b).Ok?
    ensures Overwrites(a, b, MergeAtoms(a, b).value)
  {
  }

  /** The nodes of a merged tree, field by field: at a path that only one of the trees has,
      that tree's fields; at a path of both, the first tree's with what the second sets. */
  lemma {:induction false} MergedNode(u: Node, v: Node, p: seq<string>)
    requires WellFormed(u) && WellFormed(v) && MergeNodes(u, v).Ok?
    ensures var a, b, r := NodeAt(u, p), NodeAt(v, p), NodeAt(MergeNodes(u, v).value, p);
      && (r.Some? <==> a.Some? || b.Some?)
      && (a.Some? && b.Some? ==> Overwrites(a.value, b.value, r.value))
      && (a.Some? && b.None? ==> r == a)
      && (a.None? && b.Some? ==> r == b)
    decreases |p|
  {
    hide WellFormed, MergeAtoms, MergeNodes, AttrsOf, Override, Overwrites;
    if p != [] {
      MergeNodesLookup(u, v, p[0]);
      var a, b := Lookup(Alts(u), p[0]), Lookup(Alts(v), p[0]);
      if a.Some? && b.Some? {
        LookupWellFormed(u, p[0]);
        LookupWellFormed(v, p[0]);
        MergeAtomsNext(a.value, b.value);
        AtomsOverwrite(a.value, b.value);
        if |p| > 1 && Next(a.value).Some? && Next(b.value).Some? {
          MergedNode(Next(a.value).value, Next(b.value).value, p[1..]);
        }
      }
    }
  }

  /** The ids of the alternatives that follow the path p, in their order. */
  function AltsAt(n: Node, p: seq<string>): Option<seq<string>>
    decreases |p|
  {
    if p == [] then Some(Ids(Alts(n)))
    else match Lookup(Alts(n), p[0])
      case None => None
      case Some(a) => if a.children == [] then None else AltsAt(a.children[0], p[1..])
  }

  /** ids without those in known. */
  function Without(ids: seq<string>, known: seq<string>): seq<string> {
    if ids == [] then [] else (if ids[0] in known then [] else [ids[0]]) + Without(ids[1..], known)
  }

  /** The alternatives of a merged tree, everywhere: first those of the first tree in their
      order, then the new ones of the second in theirs. */
  lemma {:induction false} MergedOrder(u: Node, v: Node, p: seq<string>)
    requires WellFormed(u) && WellFormed(v) && MergeNodes(u, v).Ok?
    ensures var a, b, r := AltsAt(u, p), AltsAt(v, p), AltsAt(MergeNodes(u, v).value, p);
      && (a.Some? && b.Some? ==> r == Some(a.value + Without(b.value, a.value)))
      && (a.None? ==> r == b)
      && (b.None? ==> r == a)
    decreases |p|
  {
    hide WellFormed, MergeAtoms, MergeNodes, AttrsOf, Override, Without;
    if p == [] {
      NodesOrder(u, v);
    } else {
      MergeNodesLookup(u, v, p[0]);
      var a, b := Lookup(Alts(u), p[0]), Lookup(Alts(v), p[0]);
      if a.Some? && b.Some? {
        LookupWellFormed(u, p[0]);
        LookupWellFormed(v, p[0]);
        MergeAtomsNext(a.value, b.value);
        if Next(a.value).Some? && Next(b.value).Some? {
          MergedOrder(Next(a.value).value, Next(b.value).value, p[1..]);
        }
      }
    }
  }

  lemma NodesOrder(u: Node, v: Node)
    requires WellFormed(u) && WellFormed(v) && MergeNodes(u, v).Ok?
    ensures Ids(Alts(MergeNodes(u, v).value)) == Ids(Alts(u)) + Without(Ids(Alts(v)), Ids(Alts(u)))
  {
    hide MergeAtoms, MergeAlts;
    var m := MergeNodes(u, v).value;
    if !u.t.Choice? && !v.t.Choice? && Id(u) == Id(v) {
      MergeAtomsId(u, v);
      assert Alts(m) == [m] && Alts(u) == [u] && Alts(v) == [v];
      assert Ids([v])[1..] == [];
      assert Ids([v])[0] in Ids([u]);
      assert Ids(Alts(m)) == Ids(Alts(u));
    } else {
      AltsOrder(Alts(u), Alts(v));
    }
  }

  lemma {:induction false} WithoutMore(ids: seq<string>, known: seq<string>, id: string)
    requires id !in ids
    ensures Without(ids, known + [id]) == Without(ids, known)
  {
    if ids != [] {
      WithoutMore(ids[1..], known, id);
    }
  }

  lemma WithoutNothing(known: seq<string>)
    ensures Without([], known) == []
  {
  }

  lemma WithoutFirst(ids: seq<string>, known: seq<string>)
    requires ids != []
    ensures var rest := Without(ids[1..], known);
      Without(ids, known) == if ids[0] in known then rest else [ids[0]] + rest
  {
    assert [] + Without(ids[1..], known) == Without(ids[1..], known);
  }

  lemma WithoutStep(ids: seq<string>, known: seq<string>)
    requires ids != [] && ids[0] !in ids[1..]
    ensures var known' := known + (if ids[0] in known then [] else [ids[0]]);
      known' + Without(ids[1..], known') == known + Without(ids, known)
  {
    var rest := Without(ids[1..], known);
    WithoutFirst(ids, known);
    hide Without;
    if ids[0] in known {
      assert known + [] == known;
    } else {
      WithoutMore(ids[1..], known, ids[0]);
      assert known + [ids[0]] + rest == known + ([ids[0]] + rest);
    }
  }

  lemma {:induction false} AltsOrder(us: seq<Node>, vs: seq<Node>)
    requires DistinctIds(us) && DistinctIds(vs) && MergeAlts(us, vs).Ok?
    ensures Ids(MergeAlts(us, vs).value) == Ids(us) + Without(Ids(vs), Ids(us))
    decreases |vs|
  {
    hide MergeAtoms, MergeAlt, Without, FindIndex;
    if vs == [] {
      WithoutNothing(Ids(us));
      assert Ids(vs) == [] && Ids(us) + [] == Ids(us);
    } else {
      var us', rest := MergeAlt(us, vs[0]).value, vs[1..];
      MergeAltLookup(us, vs[0], "");
      AltOrder(us, vs[0]);
      AltsOrder(us', rest);
      assert Ids(vs)[1..] == Ids(rest);
      assert forall j :: 0 <= j < |rest| ==> Ids(rest)[j] == Id(vs[j + 1]);
      WithoutStep(Ids(vs), Ids(us));
    }
  }

  lemma AltOrder(us: seq<Node>, v: Node)
    requires DistinctIds(us) && MergeAlt(us, v).Ok?
    ensures Ids(MergeAlt(us, v).value) == Ids(us) + (if Id(v) in Ids(us) then [] else [Id(v)])
  {
    hide MergeAtoms;
    var i := FindIndex(us, Id(v));
    if i != -1 {
      MergeAtomsId(us[i], v);
      assert Ids(us)[i] == Id(v);
    }
  }

  /** Merging never changes the kind of a continuation that one of the trees has. */
  lemma {:induction false} MergeKeepsHeads(u: Node, v: Node, p: seq<string>)
    requires WellFormed(u) && WellFormed(v) && MergeNodes(u, v).Ok?
    ensures var m := MergeNodes(u, v).value;
      HeadAt(m, p) == if HeadAt(u, p).Some? then HeadAt(u, p) else HeadAt(v, p)
    decreases |p|
  {
    hide WellFormed, MergeAtoms, MergeNodes, HeadOf, Override;
    if p == [] {
      MergeKeepsHead(u, v);
    } else {
      MergeNodesLookup(u, v, p[0]);
      var a, b := Lookup(Alts(u), p[0]), Lookup(Alts(v), p[0]);
      if a.Some? && b.Some? {
        LookupWellFormed(u, p[0]);
        LookupWellFormed(v, p[0]);
        MergeAtomsNext(a.value, b.value);
        if Next(a.value).Some? && Next(b.value).Some? {
          MergeKeepsHeads(Next(a.value).value, Next(b.value).value, p[1..]);
        }
      }
    }
  }

  lemma MergeKeepsHead(u: Node, v: Node)
    requires WellFormed(u) && WellFormed(v) && MergeNodes(u, v).Ok?
    ensures HeadOf(MergeNodes(u, v).value) == HeadOf(u)
  {
    if HeadOf(u).Explicit? {
      forall j | 0 <= j < |v.children| ensures Lookup(u.children, Id(v.children[j])).Some? {
        assert Ids(v.children)[j] == Ids(u.children)[j];
      }
      MergeAltsIds(u.children, v.children);
    }
  }

  /** Wherever both trees continue, they continue with the same kind of head. */
  ghost predicate Compatible(u: Node, v: Node) {
    forall p :: HeadAt(u, p).Some? && HeadAt(v, p).Some? ==> HeadAt(u, p) == HeadAt(v, p)
  }

  /** Merge succeeds exactly on compatible trees. */
  lemma {:induction false} MergeSucceedsIff(u: Node, v: Node)
    requires WellFormed(u) && WellFormed(v)
    ensures MergeNodes(u, v).Ok? <==> Compatible(u, v)
  {
    if MergeNodes(u, v).Ok? {
      forall p | HeadAt(u, p).Some? && HeadAt(v, p).Some? ensures HeadAt(u, p) == HeadAt(v, p) {
        SuccessIsCompatible(u, v, p);
      }
    } else {
      var p := FailureIsIncompatible(u, v);
    }
  }

  /** What follows the id path p. */
  function After(n: Node, p: seq<string>): Option<Node>
    decreases |p|
  {
    if p == [] then Some(n)
    else match Lookup(Alts(n), p[0])
      case None => None
      case Some(a) => if a.children == [] then None else After(a.children[0], p[1..])
  }

  predicate IsExplicit(n: Node) {
    n.t == Choice && n.explicitChoice
  }

  predicate SameAtoms(a: Node, b: Node) {
    a.t == b.t && (a.t == Literal ==> a.value == b.value)
  }

  /** Explicit choices of the same atoms in the same order, or no explicit choice at all. */
  predicate Agree(u: Node, v: Node) {
    if IsExplicit(u) && IsExplicit(v) then
      && |u.children| == |v.children|
      && forall i :: 0 <= i < |u.children| ==> SameAtoms(u.children[i], v.children[i])
    else !IsExplicit(u) && !IsExplicit(v)
  }

  lemma AgreeIff(u: Node, v: Node)
    ensures Agree(u, v) <==> HeadOf(u) == HeadOf(v)
  {
    if IsExplicit(u) && IsExplicit(v) && |u.children| == |v.children| {
      forall i | 0 <= i < |u.children|
        ensures Ids(u.children)[i] == Ids(v.children)[i] <==> SameAtoms(u.children[i], v.children[i])
      {
        SameId(u.children[i], v.children[i]);
      }
      assert Ids(u.children) == Ids(v.children) <==>
        forall i :: 0 <= i < |u.children| ==> Ids(u.children)[i] == Ids(v.children)[i];
    } else if IsExplicit(u) && IsExplicit(v) {
      assert |Ids(u.children)| != |Ids(v.children)|;
    }
  }

  lemma {:induction false} HeadIsOfAfter(n: Node, p: seq<string>)
    ensures HeadAt(n, p) == match After(n, p) case None => None case Some(m) => Some(HeadOf(m))
    decreases |p|
  {
    if p != [] && Lookup(Alts(n), p[0]).Some? && Next(Lookup(Alts(n), p[0]).value).Some? {
      HeadIsOfAfter(Next(Lookup(Alts(n), p[0]).value).value, p[1..]);
    }
  }

  lemma HeadsDiffer(u: Node, v: Node, p: seq<string>)
    ensures After(u, p).Some? && After(v, p).Some? && !Agree(After(u, p).value, After(v, p).value) <==>
      HeadAt(u, p).Some? && HeadAt(v, p).Some? && HeadAt(u, p) != HeadAt(v, p)
  {
    hide HeadAt, After, Agree, HeadOf;
    HeadIsOfAfter(u, p);
    HeadIsOfAfter(v, p);
    if After(u, p).Some? && After(v, p).Some? {
      AgreeIff(After(u, p).value, After(v, p).value);
    }
  }

  /** Merge fails exactly when, after some beginning of a command that both trees have, one of
      them continues with an explicit choice and the other not with the same choice. */
  lemma MergeFailsIff(u: Node, v: Node)
    requires WellFormed(u) && WellFormed(v)
    ensures MergeNodes(u, v).Err? <==>
      exists p :: After(u, p).Some? && After(v, p).Some? && !Agree(After(u, p).value, After(v, p).value)
  {
    hide HeadAt, After, Agree, MergeNodes, WellFormed;
    MergeSucceedsIff(u, v);
    if !Compatible(u, v) {
      var p :| HeadAt(u, p).Some? && HeadAt(v, p).Some? && HeadAt(u, p) != HeadAt(v, p);
      HeadsDiffer(u, v, p);
    }
    if p :| After(u, p).Some? && After(v, p).Some? && !Agree(After(u, p).value, After(v, p).value) {
      HeadsDiffer(u, v, p);
    }
  }

  lemma {:induction false} SuccessIsCompatible(u: Node, v: Node, p: seq<string>)
    requires WellFormed(u) && WellFormed(v) && MergeNodes(u, v).Ok?
    requires HeadAt(u, p).Some? && HeadAt(v, p).Some?
    ensures HeadAt(u, p) == HeadAt(v, p)
    decreases |p|
  {
    if p != [] {
      MergeNodesLookup(u, v, p[0]);
      LookupWellFormed(u, p[0]);
      LookupWellFormed(v, p[0]);
      var a, b := Lookup(Alts(u), p[0]).value, Lookup(Alts(v), p[0]).value;
      MergeAtomsNext(a, b);
      SuccessIsCompatible(Next(a).value, Next(b).value, p[1..]);
    }
  }

  lemma {:induction false} FailureIsIncompatible(u: Node, v: Node) returns (p: seq<string>)
    requires WellFormed(u) && WellFormed(v) && MergeNodes(u, v).Err?
    ensures HeadAt(u, p).Some? && HeadAt(v, p).Some? && HeadAt(u, p) != HeadAt(v, p)
    decreases Size(v)
  {
    hide HeadAt, HeadOf, MergeNodes, WellFormed, Size;
    HeadAtRoot(u);
    HeadAtRoot(v);
    if HeadOf(u) != HeadOf(v) {
      p := [];
    } else {
      var a, b := FailingPair(u, v);
      assert a.children[0] in a.children && b.children[0] in b.children;
      var q := FailureIsIncompatible(a.children[0], b.children[0]);
      p := [Id(b)] + q;
      HeadAtBelow(u, a, Id(b), q);
      HeadAtBelow(v, b, Id(b), q);
    }
  }

  lemma HeadAtRoot(n: Node)
    ensures HeadAt(n, []) == Some(HeadOf(n))
  {
  }

  lemma HeadAtBelow(n: Node, a: Node, id: string, q: seq<string>)
    requires Lookup(Alts(n), id) == Some(a) && a.children != []
    ensures HeadAt(n, [id] + q) == HeadAt(a.children[0], q)
  {
    assert ([id] + q)[1..] == q;
  }

  /** a and b are alternatives with the same id whose continuations do not merge. */
  ghost predicate Clash(u: Node, v: Node, a: Node, b: Node) {
    && Lookup(Alts(u), Id(b)) == Some(a) && Lookup(Alts(v), Id(b)) == Some(b)
    && WellFormedAtom(a) && WellFormedAtom(b) && Size(b) <= Size(v)
    && a.children != [] && b.children != [] && Size(b.children[0]) < Size(b)
    && MergeNodes(a.children[0], b.children[0]).Err?
  }

  lemma FailingPair(u: Node, v: Node) returns (a: Node, b: Node)
    requires WellFormed(u) && WellFormed(v) && MergeNodes(u, v).Err? && HeadOf(u) == HeadOf(v)
    ensures Clash(u, v, a, b)
  {
    hide Clash;
    AltsWellFormed(u);
    AltsWellFormed(v);
    if !u.t.Choice? && !v.t.Choice? && Id(u) == Id(v) {
      a, b := u, v;
      LookupIndex(Alts(u), 0);
      LookupIndex(Alts(v), 0);
    } else {
      MergeAltsOk(Alts(u), Alts(v));
      var j :| 0 <= j < |Alts(v)| && MergeEntries(Lookup(Alts(u), Id(Alts(v)[j])), Some(Alts(v)[j])).Err?;
      b := Alts(v)[j];
      a := Lookup(Alts(u), Id(b)).value;
      LookupIndex(Alts(v), j);
    }
    ClashAt(u, v, a, b);
  }

  lemma ClashAt(u: Node, v: Node, a: Node, b: Node)
    requires WellFormed(u) && WellFormed(v) && MergeAtoms(a, b).Err?
    requires Lookup(Alts(u), Id(b)) == Some(a) && Lookup(Alts(v), Id(b)) == Some(b)
    ensures Clash(u, v, a, b)
  {
    hide MergeAtoms;
    AtomContinuation(a, b);
    LookupWellFormed(u, Id(b));
    LookupWellFormed(v, Id(b));
    assert b in Alts(v);
  }

  // ---------------------------------------------------------------- what a merge keeps

  lemma {:induction false} MergeKeepsWellFormed(u: Node, v: Node)
    requires WellFormed(u) && WellFormed(v) && MergeNodes(u, v).Ok?
    ensures WellFormed(MergeNodes(u, v).value)
    decreases Size(v), 2
  {
    var m := MergeNodes(u, v).value;
    if !u.t.Choice? && !v.t.Choice? && Id(u) == Id(v) {
      MergeAtomsWellFormed(u, v);
    } else {
      var rs := m.children;
      MergeAltsIds(Alts(u), Alts(v));
      MergeAltsLookup(Alts(u), Alts(v), "");
      forall i | 0 <= i < |rs| ensures WellFormedAtom(rs[i]) {
        MergedAltWellFormed(u, v, rs, i);
      }
      if HeadOf(u).Explicit? {
        MergeKeepsHead(u, v);
        forall i | 0 <= i < |rs| ensures rs[i].children == MergeAtoms(u.children[0], v.children[0]).value.children {
          MergedOption(u, v, rs, i);
        }
      }
    }
  }

  lemma {:induction false} MergeAtomsWellFormed(a: Node, b: Node)
    requires WellFormedAtom(a) && WellFormedAtom(b) && MergeAtoms(a, b).Ok?
    ensures WellFormedAtom(MergeAtoms(a, b).value)
    decreases Size(b), 0
  {
    MergeAtomsNext(a, b);
    if Next(a).Some? && Next(b).Some? {
      MergeKeepsWellFormed(a.children[0], b.children[0]);
    }
  }

  lemma {:induction false} MergedAltWellFormed(u: Node, v: Node, rs: seq<Node>, i: nat)
    requires WellFormed(u) && WellFormed(v) && DistinctIds(rs) && i < |rs|
    requires MergeAlts(Alts(u), Alts(v)) == Ok(rs)
    ensures WellFormedAtom(rs[i])
    decreases Size(v), 1
  {
    hide MergeAlts, MergeAtoms, WellFormed, WellFormedAtom, Size;
    var id := Id(rs[i]);
    AltsWellFormed(u);
    AltsWellFormed(v);
    MergeAltsLookup(Alts(u), Alts(v), id);
    var a, b := Lookup(Alts(u), id), Lookup(Alts(v), id);
    if a.Some? {
      LookupWellFormed(u, id);
    }
    if b.Some? {
      LookupWellFormed(v, id);
    }
    LookupIndex(rs, i);
    if a.Some? && b.Some? {
      MergeAtomsWellFormed(a.value, b.value);
    }
  }

  /** Option i of a merge of two explicit choices is the merge of their options i; since all
      options of either continue alike, so do all options of the merge. */
  lemma MergedOption(u: Node, v: Node, rs: seq<Node>, i: nat)
    requires WellFormed(u) && WellFormed(v) && HeadOf(u).Explicit? && HeadOf(u) == HeadOf(v)
    requires MergeAlts(u.children, v.children) == Ok(rs) && DistinctIds(rs) && Ids(rs) == Ids(u.children)
    requires i < |rs|
    ensures MergeAtoms(u.children[i], v.children[i]) == Ok(rs[i])
    ensures MergeAtoms(u.children[0], v.children[0]).Ok?
    ensures rs[i].children == MergeAtoms(u.children[0], v.children[0]).value.children
  {
    assert Ids(rs)[i] == Ids(u.children)[i] == Ids(v.children)[i];
    MergeAltsLookup(u.children, v.children, Id(rs[i]));
    LookupIndex(u.children, i);
    LookupIndex(v.children, i);
    LookupIndex(rs, i);
    assert WellFormedAtom(u.children[i]);
    MergeAtomsContinuation(u.children[i], v.children[i], u.children[0], v.children[0]);
  }

  lemma LookupIndex(ns: seq<Node>, i: nat)
    requires DistinctIds(ns) && i < |ns|
    ensures Lookup(ns, Id(ns[i])) == Some(ns[i])
  {
  }

  /** How two atoms' continuations merge does not depend on the atoms. */
  lemma MergeAtomsContinuation(a: Node, b: Node, a': Node, b': Node)
    requires a.children == a'.children && b.children == b'.children && |a.children| <= 1
    ensures MergeAtoms(a, b).Ok? <==> MergeAtoms(a', b').Ok?
    ensures MergeAtoms(a, b).Ok? ==> MergeAtoms(a, b).value.children == MergeAtoms(a', b').value.children
  {
    hide MergeAtoms, Continuation;
    AtomContinuation(a, b);
    AtomContinuation(a', b');
  }

  /** How an atom continues after a merge. */
  function Continuation(us: seq<Node>, vs: seq<Node>): Result<seq<Node>> {
    if vs == [] then Ok(us)
    else if us == [] then Ok([vs[0]])
    else match MergeNodes(us[0], vs[0])
      case Err => Err
      case Ok(c) => Ok([c])
  }

  lemma AtomContinuation(a: Node, b: Node)
    ensures MergeAtoms(a, b).Ok? <==> Continuation(a.children, b.children).Ok?
    ensures MergeAtoms(a, b).Ok? ==> Ok(MergeAtoms(a, b).value.children) == Continuation(a.children, b.children)
  {
  }

  // ---------------------------------------------------------------- idempotence

  /** us already holds every alternative of vs. */
  ghost predicate Absorbs(us: seq<Node>, vs: seq<Node>) {
    forall j :: 0 <= j < |vs| ==>
      && Lookup(us, Id(vs[j])).Some?
      && MergeAtoms(Lookup(us, Id(vs[j])).value, vs[j]) == Ok(Lookup(us, Id(vs[j])).value)
  }

  lemma {:induction false} AbsorbedMerge(us: seq<Node>, vs: seq<Node>)
    requires Absorbs(us, vs)
    ensures MergeAlts(us, vs) == Ok(us)
  {
    if vs != [] {
      assert Lookup(us, Id(vs[0])).Some?;
      var i := FindIndex(us, Id(vs[0]));
      assert us[i := us[i]] == us;
      AbsorbedMerge(us, vs[1..]);
    }
  }

  lemma {:induction false} MergeWithItself(v: Node)
    requires WellFormed(v)
    ensures MergeNodes(v, v) == Ok(v)
    decreases Size(v), 1
  {
    var vs := Alts(v);
    forall j | 0 <= j < |vs| ensures Lookup(vs, Id(vs[j])) == Some(vs[j]) && MergeAtoms(vs[j], vs[j]) == Ok(vs[j]) {
      LookupIndex(vs, j);
      AtomWithItself(vs[j]);
    }
    AbsorbedMerge(vs, vs);
  }

  lemma {:induction false} AtomWithItself(a: Node)
    requires WellFormedAtom(a)
    ensures MergeAtoms(a, a) == Ok(a)
    decreases Size(a), 0
  {
    if a.children != [] {
      assert a.children == [a.children[0]];
      MergeWithItself(a.children[0]);
    }
  }

  /** Merging the same tree a second time changes nothing. */
  lemma {:induction false} MergeIsIdempotent(u: Node, v: Node)
    requires WellFormed(u) && WellFormed(v) && MergeNodes(u, v).Ok?
    ensures var m := MergeNodes(u, v).value; MergeNodes(m, v) == Ok(m)
    decreases Size(v), 1
  {
    hide MergeAlts;
    var m := MergeNodes(u, v).value;
    MergeKeepsHead(u, v);
    var ms, vs := Alts(m), Alts(v);
    if !u.t.Choice? && !v.t.Choice? && Id(u) == Id(v) {
      AtomMergeIsIdempotent(u, v);
    } else {
      forall j | 0 <= j < |vs|
        ensures Lookup(ms, Id(vs[j])).Some?
        ensures MergeAtoms(Lookup(ms, Id(vs[j])).value, vs[j]) == Ok(Lookup(ms, Id(vs[j])).value)
      {
        MergeNodesLookup(u, v, Id(vs[j]));
        LookupIndex(vs, j);
        AtomWithItself(vs[j]);
        if Lookup(Alts(u), Id(vs[j])).Some? {
          LookupWellFormed(u, Id(vs[j]));
          AtomMergeIsIdempotent(Lookup(Alts(u), Id(vs[j])).value, vs[j]);
        }
      }
      AbsorbedMerge(ms, vs);
    }
  }

  lemma {:induction false} AtomMergeIsIdempotent(a: Node, b: Node)
    requires WellFormedAtom(a) && WellFormedAtom(b) && MergeAtoms(a, b).Ok?
    ensures var m := MergeAtoms(a, b).value; MergeAtoms(m, b) == Ok(m)
    decreases Size(b), 0
  {
    if b.children != [] {
      assert b.children == [b.children[0]];
      if a.children == [] {
        MergeWithItself(b.children[0]);
      } else {
        MergeIsIdempotent(a.children[0], b.children[0]);
      }
    }
  }

  // ---------------------------------------------------------------- merging many trees

  /** Node.Merge: merge the trees of ns into root one after the other. */
  function MergeAll(root: Option<Node>, ns: seq<Node>): Result<Option<Node>>
    decreases |ns|
  {
    if ns == [] then Ok(root)
    else match root
      case None => MergeAll(Some(ns[0]), ns[1..])
      case Some(u) =>
        match MergeNodes(u, ns[0])
        case Err => Err
        case Ok(m) => MergeAll(Some(m), ns[1..])
  }

  ghost predicate AllWellFormed(ns: seq<Node>) {
    forall n :: n in ns ==> WellFormed(n)
  }

  ghost predicate AllCompatible(ns: seq<Node>) {
    forall m, n :: m in ns && n in ns ==> Compatible(m, n)
  }

  /** A merge is compatible with exactly the trees both its parts are compatible with. */
  lemma CompatibleWithMerge(u: Node, v: Node, w: Node)
    requires WellFormed(u) && WellFormed(v) && MergeNodes(u, v).Ok?
    ensures Compatible(MergeNodes(u, v).value, w) <==> Compatible(u, w) && Compatible(v, w)
  {
    var m := MergeNodes(u, v).value;
    MergeSucceedsIff(u, v);
    forall p ensures HeadAt(m, p) == if HeadAt(u, p).Some? then HeadAt(u, p) else HeadAt(v, p) {
      MergeKeepsHeads(u, v, p);
    }
    if Compatible(m, w) {
      forall p | HeadAt(u, p).Some? && HeadAt(w, p).Some? ensures HeadAt(u, p) == HeadAt(w, p) {
        assert HeadAt(m, p) == HeadAt(u, p);
      }
      forall p | HeadAt(v, p).Some? && HeadAt(w, p).Some? ensures HeadAt(v, p) == HeadAt(w, p) {
        assert HeadAt(m, p) == HeadAt(v, p);
      }
    }
  }

  /** Merging a list of trees succeeds exactly when the trees are pairwise compatible. */
  lemma {:induction false} MergeAllSucceedsIff(u: Node, ns: seq<Node>)
    requires WellFormed(u) && AllWellFormed(ns)
    ensures MergeAll(Some(u), ns).Ok? <==> AllCompatible([u] + ns)
    decreases |ns|
  {
    if ns == [] {
    } else {
      var v, rest := ns[0], ns[1..];
      MergeSucceedsIff(u, v);
      assert ns == [v] + rest;
      if MergeNodes(u, v).Ok? {
        var m := MergeNodes(u, v).value;
        MergeKeepsWellFormed(u, v);
        MergeAllSucceedsIff(m, rest);
        AllCompatibleStep(u, v, m, rest);
      } else {
        assert u in [u] + ns && v in [u] + ns;
      }
    }
  }

  lemma AllCompatibleStep(u: Node, v: Node, m: Node, rest: seq<Node>)
    requires WellFormed(u) && WellFormed(v) && MergeNodes(u, v) == Ok(m)
    ensures AllCompatible([m] + rest) <==> AllCompatible([u] + ([v] + rest))
  {
    hide WellFormed, MergeNodes, HeadAt;
    var ms, us := [m] + rest, [u] + ([v] + rest);
    MergeSucceedsIff(u, v);
    forall w ensures Compatible(m, w) <==> Compatible(u, w) && Compatible(v, w) {
      CompatibleWithMerge(u, v, w);
    }
    assert forall w :: w in ms <==> w == m || w in rest;
    assert forall w :: w in us <==> w == u || w == v || w in rest;
    assert forall w, x :: Compatible(w, x) <==> Compatible(x, w);
  }

  /** OverrideAt over a list of trees: the last tree that sets an attribute wins. */
  function AtPathAll(ns: seq<Node>, p: seq<string>): Option<Attrs> {
    if ns == [] then None
    else OverrideAt(AtPath(ns[0], p), AtPathAll(ns[1..], p))
  }

  /** A tree merged from many holds, under every id path, what the trees hold there. */
  lemma {:induction false} MergeAllIsUnion(ns: seq<Node>, p: seq<string>)
    requires ns != [] && AllWellFormed(ns) && MergeAll(None, ns).Ok?
    ensures MergeAll(None, ns).value.Some?
    ensures WellFormed(MergeAll(None, ns).value.value)
    ensures AtPath(MergeAll(None, ns).value.value, p) == AtPathAll(ns, p)
  {
    MergeAllFrom(ns[0], ns[1..], p);
  }

  lemma {:induction false} MergeAllFrom(u: Node, ns: seq<Node>, p: seq<string>)
    requires WellFormed(u) && AllWellFormed(ns) && MergeAll(Some(u), ns).Ok?
    ensures MergeAll(Some(u), ns).value.Some?
    ensures WellFormed(MergeAll(Some(u), ns).value.value)
    ensures AtPath(MergeAll(Some(u), ns).value.value, p) == OverrideAt(AtPath(u, p), AtPathAll(ns, p))
    decreases |ns|
  {
    hide WellFormed, MergeNodes, AtPath;
    if ns != [] {
      var m := MergeNodes(u, ns[0]).value;
      MergeKeepsWellFormed(u, ns[0]);
      MergeIsUnion(u, ns[0], p);
      MergeAllFrom(m, ns[1..], p);
    }
  }

  lemma {:induction false} AtPathAllExists(ns: seq<Node>, p: seq<string>)
    ensures AtPathAll(ns, p).Some? <==> exists n :: n in ns && HasPath(n, p)
  {
    if ns != [] {
      AtPathAllExists(ns[1..], p);
      assert forall n :: n in ns <==> n == ns[0] || n in ns[1..];
      assert HasPath(ns[0], p) <==> AtPath(ns[0], p).Some?;
    }
  }

  /** Registration order does not matter: two lists of the same trees, in any order and with
      any repetitions, either both merge or both fail; and if they merge, both contain
      exactly the commands of the trees. */
  lemma {:induction false} OrderIrrelevant(ms: seq<Node>, ns: seq<Node>, p: seq<string>)
    requires ms != [] && AllWellFormed(ms)
    requires forall n :: n in ms <==> n in ns
    ensures ns != []
    ensures MergeAll(None, ms).Ok? <==> MergeAll(None, ns).Ok?
    ensures MergeAll(None, ms).Ok? ==>
      && MergeAll(None, ms).value.Some? && MergeAll(None, ns).value.Some?
      && (HasPath(MergeAll(None, ms).value.value, p) <==> exists n :: n in ms && HasPath(n, p))
      && (HasPath(MergeAll(None, ns).value.value, p) <==> HasPath(MergeAll(None, ms).value.value, p))
  {
    assert ms[0] in ns;
    MergeAllSucceedsIff(ms[0], ms[1..]);
    MergeAllSucceedsIff(ns[0], ns[1..]);
    assert [ms[0]] + ms[1..] == ms && [ns[0]] + ns[1..] == ns;
    if MergeAll(None, ms).Ok? {
      MergeAllIsUnion(ms, p);
      MergeAllIsUnion(ns, p);
      AtPathAllExists(ms, p);
      AtPathAllExists(ns, p);
    }
  }
}
