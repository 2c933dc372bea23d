// Which nodes the "?" help lists: of the nodes with one id that may come next, the first in
// the tree, and all of them in the order of the tree.

module CommandHelpOrder {
  import opened Prelude
  import opened Addresses
  import opened CommandTree
  import opened CommandMerge
  import opened CommandMatch
  import opened CommandHelp
  import opened CommandCompletion

  /** p is a path of the tree that accepts all fields but the last, and its node the last as
      far as it goes. */
  ghost predicate Leads(n: Node, p: seq<string>, fields: seq<string>, v6: V6Parser, v6pre: V6Prefix) {
    && p != [] && LeadsPast(p, fields, v6)
    && NodeAt(n, p).Some? && AtomSoFar(NodeAt(n, p).value, fields[|p| - 1], v6pre)
  }

  /** The alternative that p starts with. */
  function Through(n: Node, p: seq<string>): int
    requires p != []
  {
    FindIndex(Alts(n), p[0])
  }

  /** A path that leads on through one of the first k alternatives, or through the next one to
      a node with one of the ids. */
  ghost predicate Covered(n: Node, k: nat, ids: seq<string>, fields: seq<string>, v6: V6Parser, v6pre: V6Prefix,
        q: seq<string>)
  {
    && Leads(n, q, fields, v6, v6pre)
    && (Through(n, q) < k || (Through(n, q) == k && q[|q| - 1] in ids))
  }

  ghost predicate AtOrBefore(n: Node, p: seq<string>, q: seq<string>) {
    p == q || Before(n, p, q)
  }

  /** ns are the nodes at the paths ps, which come in the order of the tree, and for every path
      that is covered, one of ps leads to the same id and does not come after it. */
  ghost predicate Firsts(n: Node, k: nat, ids: seq<string>, fields: seq<string>, v6: V6Parser, v6pre: V6Prefix,
        ns: seq<Node>, ps: seq<seq<string>>)
  {
    && |ps| == |ns|
    && (forall i :: 0 <= i < |ps| ==> Covered(n, k, ids, fields, v6, v6pre, ps[i]) && NodeAt(n, ps[i]) == Some(ns[i]))
    && (forall i, j :: 0 <= i < j < |ps| ==> Before(n, ps[i], ps[j]))
    && (forall q :: Covered(n, k, ids, fields, v6, v6pre, q) ==> Reached(n, ns, ps, q))
  }

  ghost predicate Reached(n: Node, ns: seq<Node>, ps: seq<seq<string>>, q: seq<string>)
    requires q != [] && |ps| == |ns|
  {
    exists i :: 0 <= i < |ps| && Id(ns[i]) == q[|q| - 1] && AtOrBefore(n, ps[i], q)
  }

  lemma {:induction false} NodeAtId(n: Node, p: seq<string>)
    requires NodeAt(n, p).Some?
    ensures p != [] && Id(NodeAt(n, p).value) == p[|p| - 1] && Through(n, p) >= 0
    decreases |p|
  {
    if |p| > 1 {
      NodeAtId(Lookup(Alts(n), p[0]).value.children[0], p[1..]);
    }
  }

  // ---------------------------------------------------------------- one more node

  lemma AddOne(n: Node, k: nat, ids: seq<string>, fields: seq<string>, v6: V6Parser, v6pre: V6Prefix,
        ns: seq<Node>, ps: seq<seq<string>>, b: Node, pb: seq<string>)
    returns (ps': seq<seq<string>>)
    requires Firsts(n, k, ids, fields, v6, v6pre, ns, ps)
    requires Leads(n, pb, fields, v6, v6pre) && Through(n, pb) == k && NodeAt(n, pb) == Some(b) && Id(b) !in ids
    requires forall q :: Leads(n, q, fields, v6, v6pre) && Through(n, q) == k && q[|q| - 1] == Id(b) ==>
      AtOrBefore(n, pb, q)
    requires forall p :: p in ps && p != [] && Through(n, p) == k ==> Before(n, p, pb)
    ensures Firsts(n, k, ids + [Id(b)], fields, v6, v6pre, AddNew(ns, [b]), ps')
    ensures ps' == ps || ps' == ps + [pb]
  {
    hide Leads, NodeAt, Before, AddNew;
    NodeAtId(n, pb);
    AddSingle(ns, b);
    MoreCovered(n, k, ids, fields, v6, v6pre, Id(b));
    var j := FindIndex(ns, Id(b));
    if j == -1 {
      ps' := ps + [pb];
      PathsAppended(n, k, ids, fields, v6, v6pre, ns, ps, b, pb);
    } else {
      ps' := ps;
      PathsStay(n, k, ids, fields, v6, v6pre, ns, ps, b, j);
    }
  }

  lemma AddSingle(ns: seq<Node>, b: Node)
    ensures AddNew(ns, [b]) == if FindIndex(ns, Id(b)) == -1 then ns + [b] else ns
  {
    assert [b][..0] == [];
  }

  lemma MoreCovered(n: Node, k: nat, ids: seq<string>, fields: seq<string>, v6: V6Parser, v6pre: V6Prefix, id: string)
    ensures forall q :: Covered(n, k, ids + [id], fields, v6, v6pre, q) <==>
      || Covered(n, k, ids, fields, v6, v6pre, q)
      || (Leads(n, q, fields, v6, v6pre) && Through(n, q) == k && q[|q| - 1] == id)
  {
    hide Leads, Through;
  }

  lemma PathsAppended(n: Node, k: nat, ids: seq<string>, fields: seq<string>, v6: V6Parser, v6pre: V6Prefix,
        ns: seq<Node>, ps: seq<seq<string>>, b: Node, pb: seq<string>)
    requires Firsts(n, k, ids, fields, v6, v6pre, ns, ps)
    requires Leads(n, pb, fields, v6, v6pre) && Through(n, pb) == k && NodeAt(n, pb) == Some(b)
    requires forall q :: Leads(n, q, fields, v6, v6pre) && Through(n, q) == k && q[|q| - 1] == Id(b) ==>
      AtOrBefore(n, pb, q)
    requires forall p :: p in ps && p != [] && Through(n, p) == k ==> Before(n, p, pb)
    requires forall q :: Covered(n, k, ids + [Id(b)], fields, v6, v6pre, q) <==>
      || Covered(n, k, ids, fields, v6, v6pre, q)
      || (Leads(n, q, fields, v6, v6pre) && Through(n, q) == k && q[|q| - 1] == Id(b))
    ensures Firsts(n, k, ids + [Id(b)], fields, v6, v6pre, ns + [b], ps + [pb])
  {
    hide NodeAt, Covered, Before, Leads, Reached, AtOrBefore, Through;
    NodeAtId(n, pb);
    var ns', ps' := ns + [b], ps + [pb];
    forall i | 0 <= i < |ps| ensures Before(n, ps[i], pb) {
      CoveredThrough(n, k, ids, fields, v6, v6pre, ps[i]);
      assert ps[i] in ps;
      if Through(n, ps[i]) < k {
        EarlierAlternative(n, ps[i], pb);
      }
    }
    forall q | Covered(n, k, ids + [Id(b)], fields, v6, v6pre, q) ensures q != [] && Reached(n, ns', ps', q) {
      CoveredThrough(n, k, ids + [Id(b)], fields, v6, v6pre, q);
      ReachedStill(n, ns, ps, q, b, pb);
    }
  }

  lemma ReachedStill(n: Node, ns: seq<Node>, ps: seq<seq<string>>, q: seq<string>, b: Node, pb: seq<string>)
    requires q != [] && |ps| == |ns|
    ensures Reached(n, ns, ps, q) || (Id(b) == q[|q| - 1] && AtOrBefore(n, pb, q)) ==>
      Reached(n, ns + [b], ps + [pb], q)
  {
    hide AtOrBefore;
    var ns', ps' := ns + [b], ps + [pb];
    if Reached(n, ns, ps, q) {
      var i :| 0 <= i < |ps| && Id(ns[i]) == q[|q| - 1] && AtOrBefore(n, ps[i], q);
      assert ns'[i] == ns[i] && AtOrBefore(n, ps'[i], q);
    } else if Id(b) == q[|q| - 1] && AtOrBefore(n, pb, q) {
      assert ns'[|ns|] == b && AtOrBefore(n, ps'[|ns|], q);
    }
  }

  lemma CoveredThrough(n: Node, k: nat, ids: seq<string>, fields: seq<string>, v6: V6Parser, v6pre: V6Prefix,
        q: seq<string>)
    requires Covered(n, k, ids, fields, v6, v6pre, q)
    ensures q != [] && 0 <= Through(n, q) <= k && NodeAt(n, q).Some?
    ensures Through(n, q) == k ==> q[|q| - 1] in ids
  {
    NodeAtId(n, q);
  }

  lemma EarlierAlternative(n: Node, p: seq<string>, q: seq<string>)
    requires p != [] && q != [] && 0 <= Through(n, p) < Through(n, q)
    ensures Before(n, p, q)
  {
  }

  lemma PathsStay(n: Node, k: nat, ids: seq<string>, fields: seq<string>, v6: V6Parser, v6pre: V6Prefix,
        ns: seq<Node>, ps: seq<seq<string>>, b: Node, j: nat)
    requires Firsts(n, k, ids, fields, v6, v6pre, ns, ps)
    requires j < |ns| && Id(ns[j]) == Id(b) && Id(b) !in ids
    requires forall q :: Covered(n, k, ids + [Id(b)], fields, v6, v6pre, q) <==>
      || Covered(n, k, ids, fields, v6, v6pre, q)
      || (Leads(n, q, fields, v6, v6pre) && Through(n, q) == k && q[|q| - 1] == Id(b))
    ensures Firsts(n, k, ids + [Id(b)], fields, v6, v6pre, ns, ps)
  {
    hide NodeAt, Covered, Before, Leads;
    CoveredThrough(n, k, ids, fields, v6, v6pre, ps[j]);
    NodeAtId(n, ps[j]);
    forall q | Covered(n, k, ids + [Id(b)], fields, v6, v6pre, q) ensures q != [] && Reached(n, ns, ps, q) {
      CoveredThrough(n, k, ids + [Id(b)], fields, v6, v6pre, q);
      if !Covered(n, k, ids, fields, v6, v6pre, q) {
        EarlierAlternative(n, ps[j], q);
        assert AtOrBefore(n, ps[j], q);
      }
    }
  }

  // ---------------------------------------------------------------- one more alternative

  /** ns are what alternative k contributes, at the paths ps. */
  ghost predicate FirstsOf(n: Node, k: nat, fields: seq<string>, v6: V6Parser, v6pre: V6Prefix,
        ns: seq<Node>, ps: seq<seq<string>>)
  {
    && |ps| == |ns| && DistinctIds(ns)
    && (forall i :: 0 <= i < |ps| ==>
         Leads(n, ps[i], fields, v6, v6pre) && Through(n, ps[i]) == k && NodeAt(n, ps[i]) == Some(ns[i]))
    && (forall i, j :: 0 <= i < j < |ps| ==> Before(n, ps[i], ps[j]))
    && (forall q :: Leads(n, q, fields, v6, v6pre) && Through(n, q) == k ==> Reached(n, ns, ps, q))
  }

  lemma {:induction false} AddMany(n: Node, k: nat, fields: seq<string>, v6: V6Parser, v6pre: V6Prefix,
        ns: seq<Node>, ps: seq<seq<string>>, bs: seq<Node>, pbs: seq<seq<string>>, i: nat)
    returns (ps': seq<seq<string>>)
    requires Firsts(n, k, [], fields, v6, v6pre, ns, ps) && FirstsOf(n, k, fields, v6, v6pre, bs, pbs) && i <= |bs|
    ensures Firsts(n, k, Ids(bs[..i]), fields, v6, v6pre, AddNew(ns, bs[..i]), ps')
    ensures forall p :: p in ps' && p != [] && Through(n, p) == k ==> p in pbs[..i]
  {
    hide Firsts, Leads, NodeAt, Before, AddNew, Through, Reached, AtOrBefore;
    if i == 0 {
      ps' := ps;
      assert bs[..0] == [] && Ids(bs[..0]) == [];
      AddNothing(n, k, fields, v6, v6pre, ns, ps);
    } else {
      var before := AddMany(n, k, fields, v6, v6pre, ns, ps, bs, pbs, i - 1);
      var b, pb := bs[i - 1], pbs[i - 1];
      assert bs[..i] == bs[..i - 1] + [b] && pbs[..i] == pbs[..i - 1] + [pb];
      assert Ids(bs[..i]) == Ids(bs[..i - 1]) + [Id(b)];
      NewId(bs, i - 1);
      FirstWithId(n, k, fields, v6, v6pre, bs, pbs, i - 1);
      AddNewSnoc(ns, bs[..i - 1], b);
      ps' := AddOne(n, k, Ids(bs[..i - 1]), fields, v6, v6pre, AddNew(ns, bs[..i - 1]), before, b, pb);
    }
  }

  lemma AddNothing(n: Node, k: nat, fields: seq<string>, v6: V6Parser, v6pre: V6Prefix, ns: seq<Node>,
        ps: seq<seq<string>>)
    requires Firsts(n, k, [], fields, v6, v6pre, ns, ps)
    ensures AddNew(ns, []) == ns
    ensures forall p :: p in ps && p != [] ==> Through(n, p) != k
  {
    forall i | 0 <= i < |ps| ensures ps[i] != [] ==> Through(n, ps[i]) != k {
      CoveredThrough(n, k, [], fields, v6, v6pre, ps[i]);
    }
  }

  lemma NewId(bs: seq<Node>, i: nat)
    requires DistinctIds(bs) && i < |bs|
    ensures Id(bs[i]) !in Ids(bs[..i])
  {
  }

  lemma AddNewSnoc(ns: seq<Node>, bs: seq<Node>, b: Node)
    ensures AddNew(ns, bs + [b]) == AddNew(AddNew(ns, bs), [b])
  {
    assert (bs + [b])[..|bs|] == bs;
    AddSingle(AddNew(ns, bs), b);
  }

  /** Of the paths through alternative k, those to one id come at or after the one listed. */
  lemma FirstWithId(n: Node, k: nat, fields: seq<string>, v6: V6Parser, v6pre: V6Prefix, bs: seq<Node>,
        pbs: seq<seq<string>>, i: nat)
    requires FirstsOf(n, k, fields, v6, v6pre, bs, pbs) && i < |bs|
    ensures forall q :: Leads(n, q, fields, v6, v6pre) && Through(n, q) == k && q[|q| - 1] == Id(bs[i]) ==>
      AtOrBefore(n, pbs[i], q)
  {
    hide NodeAt, Before, Through, AtOrBefore, Leads, DistinctIds, FirstsOf, Reached;
    ListedOnce(n, k, fields, v6, v6pre, bs, pbs);
    forall q | Leads(n, q, fields, v6, v6pre)
      ensures q != [] && (Through(n, q) == k && q[|q| - 1] == Id(bs[i]) ==> AtOrBefore(n, pbs[i], q))
    {
      SomePath(n, q, fields, v6, v6pre);
      if Through(n, q) == k && q[|q| - 1] == Id(bs[i]) {
        ListedReached(n, k, fields, v6, v6pre, bs, pbs, q);
        OnlyIndex(n, bs, pbs, i, q);
      }
    }
  }

  lemma ListedOnce(n: Node, k: nat, fields: seq<string>, v6: V6Parser, v6pre: V6Prefix, bs: seq<Node>,
        pbs: seq<seq<string>>)
    requires FirstsOf(n, k, fields, v6, v6pre, bs, pbs)
    ensures DistinctIds(bs) && |pbs| == |bs|
  {
  }

  lemma ListedReached(n: Node, k: nat, fields: seq<string>, v6: V6Parser, v6pre: V6Prefix, bs: seq<Node>,
        pbs: seq<seq<string>>, q: seq<string>)
    requires FirstsOf(n, k, fields, v6, v6pre, bs, pbs)
    requires Leads(n, q, fields, v6, v6pre) && q != [] && Through(n, q) == k
    ensures |pbs| == |bs| && Reached(n, bs, pbs, q)
  {
    hide Leads, Through, Reached, Before;
  }

  lemma OnlyIndex(n: Node, bs: seq<Node>, pbs: seq<seq<string>>, i: nat, q: seq<string>)
    requires DistinctIds(bs) && |pbs| == |bs| && i < |bs| && q != [] && q[|q| - 1] == Id(bs[i])
    requires Reached(n, bs, pbs, q)
    ensures AtOrBefore(n, pbs[i], q)
  {
    hide AtOrBefore;
    var j :| 0 <= j < |pbs| && Id(bs[j]) == q[|q| - 1] && AtOrBefore(n, pbs[j], q);
    assert !(j < i) && !(i < j);
  }

  // ---------------------------------------------------------------- the whole tree

  /** With all nodes that alternative k contributes, the paths through it are covered. */
  lemma AlternativeDone(n: Node, k: nat, fields: seq<string>, v6: V6Parser, v6pre: V6Prefix,
        ns: seq<Node>, ps: seq<seq<string>>, bs: seq<Node>, pbs: seq<seq<string>>)
    requires Firsts(n, k, Ids(bs), fields, v6, v6pre, ns, ps) && FirstsOf(n, k, fields, v6, v6pre, bs, pbs)
    ensures Firsts(n, k + 1, [], fields, v6, v6pre, ns, ps)
  {
    hide Leads, NodeAt, Before, Through, AtOrBefore, FirstsOf;
    forall q ensures Covered(n, k + 1, [], fields, v6, v6pre, q) <==> Covered(n, k, Ids(bs), fields, v6, v6pre, q) {
      if Leads(n, q, fields, v6, v6pre) {
        SomePath(n, q, fields, v6, v6pre);
        if Through(n, q) == k {
          LastIsListed(n, k, fields, v6, v6pre, bs, pbs, q);
        }
      }
    }
  }

  lemma SomePath(n: Node, q: seq<string>, fields: seq<string>, v6: V6Parser, v6pre: V6Prefix)
    requires Leads(n, q, fields, v6, v6pre)
    ensures q != []
  {
  }

  lemma LastIsListed(n: Node, k: nat, fields: seq<string>, v6: V6Parser, v6pre: V6Prefix, bs: seq<Node>,
        pbs: seq<seq<string>>, q: seq<string>)
    requires FirstsOf(n, k, fields, v6, v6pre, bs, pbs)
    requires Leads(n, q, fields, v6, v6pre) && q != [] && Through(n, q) == k
    ensures q[|q| - 1] in Ids(bs)
  {
    hide Leads, NodeAt, Before, Through, AtOrBefore;
    var i :| 0 <= i < |pbs| && Id(bs[i]) == q[|q| - 1] && AtOrBefore(n, pbs[i], q);
    assert Ids(bs)[i] == q[|q| - 1];
  }

  /** The first k alternatives of a well-formed node. */
  lemma {:induction false} AltsFirst(n: Node, k: nat, fields: seq<string>, v6: V6Parser, v6pre: V6Prefix)
    returns (ps: seq<seq<string>>)
    requires WellFormed(n) && fields != [] && k <= |Alts(n)|
    ensures Firsts(n, k, [], fields, v6, v6pre, HelpAlts(n, k, fields, v6, v6pre), ps)
    decreases |fields|, 1, k
  {
    hide Firsts, FirstsOf, WellFormed, AddNew, HelpAtom;
    if k == 0 {
      ps := [];
      NoneFirst(n, fields, v6, v6pre);
    } else {
      var before := AltsFirst(n, k - 1, fields, v6, v6pre);
      var bs := HelpAtom(Alts(n)[k - 1], fields, v6, v6pre);
      var pbs := AtomFirst(n, k - 1, fields, v6, v6pre);
      var ns := HelpAlts(n, k - 1, fields, v6, v6pre);
      SameLength(n, k - 1, fields, v6, v6pre, bs, pbs);
      ps := AddMany(n, k - 1, fields, v6, v6pre, ns, before, bs, pbs, |bs|);
      assert bs[..|bs|] == bs;
      AlternativeDone(n, k - 1, fields, v6, v6pre, AddNew(ns, bs), ps, bs, pbs);
    }
  }

  lemma NoneFirst(n: Node, fields: seq<string>, v6: V6Parser, v6pre: V6Prefix)
    ensures Firsts(n, 0, [], fields, v6, v6pre, [], [])
  {
    forall q | Covered(n, 0, [], fields, v6, v6pre, q) ensures false {
      CoveredThrough(n, 0, [], fields, v6, v6pre, q);
    }
  }

  lemma SameLength(n: Node, k: nat, fields: seq<string>, v6: V6Parser, v6pre: V6Prefix, bs: seq<Node>,
        pbs: seq<seq<string>>)
    requires FirstsOf(n, k, fields, v6, v6pre, bs, pbs)
    ensures |bs| == |pbs|
  {
  }

  lemma {:induction false} AtomFirst(n: Node, k: nat, fields: seq<string>, v6: V6Parser, v6pre: V6Prefix)
    returns (ps: seq<seq<string>>)
    requires WellFormed(n) && fields != [] && k < |Alts(n)|
    ensures FirstsOf(n, k, fields, v6, v6pre, HelpAtom(Alts(n)[k], fields, v6, v6pre), ps)
    decreases |fields|, 0, 0
  {
    hide FirstsOf, Firsts, WellFormed, AtomSoFar, AcceptsId, HelpAlts;
    var a := Alts(n)[k];
    AltsWellFormed(n);
    LookupIndex(Alts(n), k);
    assert WellFormedAtom(a);
    if |fields| == 1 {
      ps := if AtomSoFar(a, fields[0], v6pre) then [[Id(a)]] else [];
      LeafFirst(n, k, fields, v6, v6pre, ps);
    } else {
      AtomAccepts(a, fields[0], v6);
      if !AcceptsId(Id(a), fields[0], v6) || a.children == [] {
        ps := [];
        DeadEnd(n, k, fields, v6, v6pre);
      } else {
        var c := a.children[0];
        assert c in a.children;
        var below := AltsFirst(c, |Alts(c)|, fields[1..], v6, v6pre);
        HelpDistinct(c, |Alts(c)|, fields[1..], v6, v6pre);
        ps := seq(|below|, i requires 0 <= i < |below| => [Id(a)] + below[i]);
        LiftFirst(n, k, fields, v6, v6pre, HelpNodes(c, fields[1..], v6, v6pre), below, ps);
      }
    }
  }

  lemma LeafFirst(n: Node, k: nat, fields: seq<string>, v6: V6Parser, v6pre: V6Prefix, ps: seq<seq<string>>)
    requires k < |Alts(n)| && Lookup(Alts(n), Id(Alts(n)[k])) == Some(Alts(n)[k]) && |fields| == 1
    requires FindIndex(Alts(n), Id(Alts(n)[k])) == k
    requires ps == if AtomSoFar(Alts(n)[k], fields[0], v6pre) then [[Id(Alts(n)[k])]] else []
    ensures FirstsOf(n, k, fields, v6, v6pre, HelpAtom(Alts(n)[k], fields, v6, v6pre), ps)
  {
    hide AtomSoFar;
    var a := Alts(n)[k];
    forall q | Leads(n, q, fields, v6, v6pre) && q != [] && Through(n, q) == k
      ensures Reached(n, HelpAtom(a, fields, v6, v6pre), ps, q)
    {
      assert q[0] == Id(a) && q == [q[0]];
      assert AtOrBefore(n, ps[0], q);
    }
  }

  lemma DeadEnd(n: Node, k: nat, fields: seq<string>, v6: V6Parser, v6pre: V6Prefix)
    requires k < |Alts(n)| && |fields| > 1
    requires !AcceptsId(Id(Alts(n)[k]), fields[0], v6) || Alts(n)[k].children == []
    ensures FirstsOf(n, k, fields, v6, v6pre, [], [])
  {
    hide AcceptsId, AtomSoFar;
    forall q | q != [] && Through(n, q) == k ensures !Leads(n, q, fields, v6, v6pre) {
      assert q[0] == Id(Alts(n)[k]);
    }
  }

  /** A path through an alternative leads on exactly when the rest of it does below. */
  lemma LeadsBelow(n: Node, k: nat, fields: seq<string>, v6: V6Parser, v6pre: V6Prefix, p: seq<string>)
    requires k < |Alts(n)| && FindIndex(Alts(n), Id(Alts(n)[k])) == k && |fields| > 1
    requires Alts(n)[k].children != [] && AcceptsId(Id(Alts(n)[k]), fields[0], v6)
    ensures Leads(n, [Id(Alts(n)[k])] + p, fields, v6, v6pre) <==>
      Leads(Alts(n)[k].children[0], p, fields[1..], v6, v6pre)
    ensures p != [] ==> NodeAt(n, [Id(Alts(n)[k])] + p) == NodeAt(Alts(n)[k].children[0], p)
    ensures Through(n, [Id(Alts(n)[k])] + p) == k
  {
    hide AcceptsId, AtomSoFar, LeadsPast;
    var all := [Id(Alts(n)[k])] + p;
    assert all[1..] == p && all[0] == Id(Alts(n)[k]);
    if |p| > 0 && |p| == |fields| - 1 {
      LeadsPastRest(all, fields, v6);
    } else {
      PastLength(all, fields, v6);
      PastLength(p, fields[1..], v6);
    }
  }

  lemma PastLength(p: seq<string>, fields: seq<string>, v6: V6Parser)
    ensures LeadsPast(p, fields, v6) ==> |p| == |fields|
  {
  }

  lemma BeforeBoth(n: Node, k: nat, p: seq<string>, q: seq<string>)
    requires k < |Alts(n)| && FindIndex(Alts(n), Id(Alts(n)[k])) == k && Alts(n)[k].children != []
    requires Before(Alts(n)[k].children[0], p, q)
    ensures Before(n, [Id(Alts(n)[k])] + p, [Id(Alts(n)[k])] + q)
  {
    var id := Id(Alts(n)[k]);
    assert ([id] + p)[1..] == p && ([id] + q)[1..] == q && ([id] + p)[0] == ([id] + q)[0] == id;
  }

  lemma LiftFirst(n: Node, k: nat, fields: seq<string>, v6: V6Parser, v6pre: V6Prefix, ns: seq<Node>,
        below: seq<seq<string>>, ps: seq<seq<string>>)
    requires k < |Alts(n)| && FindIndex(Alts(n), Id(Alts(n)[k])) == k && |fields| > 1
    requires Alts(n)[k].children != [] && AcceptsId(Id(Alts(n)[k]), fields[0], v6)
    requires var c := Alts(n)[k].children[0];
      Firsts(c, |Alts(c)|, [], fields[1..], v6, v6pre, ns, below) && DistinctIds(ns)
    requires |ps| == |below| && forall i :: 0 <= i < |ps| ==> ps[i] == [Id(Alts(n)[k])] + below[i]
    ensures FirstsOf(n, k, fields, v6, v6pre, ns, ps)
  {
    hide AcceptsId, Leads, NodeAt, Before, Through, DistinctIds;
    var id, c := Id(Alts(n)[k]), Alts(n)[k].children[0];
    forall i | 0 <= i < |ps|
      ensures Leads(n, ps[i], fields, v6, v6pre) && ps[i] != [] && Through(n, ps[i]) == k
      ensures NodeAt(n, ps[i]) == Some(ns[i])
    {
      CoveredThrough(c, |Alts(c)|, [], fields[1..], v6, v6pre, below[i]);
      LeadsBelow(n, k, fields, v6, v6pre, below[i]);
    }
    forall i, j | 0 <= i < j < |ps| ensures Before(n, ps[i], ps[j]) {
      BeforeBoth(n, k, below[i], below[j]);
    }
    hide Reached;
    forall q | Leads(n, q, fields, v6, v6pre) ensures q != [] && (Through(n, q) == k ==> Reached(n, ns, ps, q)) {
      SomePath(n, q, fields, v6, v6pre);
      if Through(n, q) == k {
        LiftReached(n, k, fields, v6, v6pre, ns, below, ps, q);
      }
    }
  }

  lemma LiftReached(n: Node, k: nat, fields: seq<string>, v6: V6Parser, v6pre: V6Prefix, ns: seq<Node>,
        below: seq<seq<string>>, ps: seq<seq<string>>, q: seq<string>)
    requires k < |Alts(n)| && FindIndex(Alts(n), Id(Alts(n)[k])) == k && |fields| > 1
    requires Alts(n)[k].children != [] && AcceptsId(Id(Alts(n)[k]), fields[0], v6)
    requires var c := Alts(n)[k].children[0]; Firsts(c, |Alts(c)|, [], fields[1..], v6, v6pre, ns, below)
    requires |ps| == |below| && forall i :: 0 <= i < |ps| ==> ps[i] == [Id(Alts(n)[k])] + below[i]
    requires q != [] && Leads(n, q, fields, v6, v6pre) && Through(n, q) == k
    ensures Reached(n, ns, ps, q)
  {
    hide AcceptsId, NodeAt, Before, Firsts, Leads, Through, Reached;
    var id, c, rest := Id(Alts(n)[k]), Alts(n)[k].children[0], q[1..];
    StartsThrough(n, k, q);
    assert q == [id] + rest;
    LeadsBelow(n, k, fields, v6, v6pre, rest);
    ReachedBelow(c, fields[1..], v6, v6pre, ns, below, rest);
    ReachedAbove(n, k, ns, below, ps, rest, q);
  }

  lemma ReachedAbove(n: Node, k: nat, ns: seq<Node>, below: seq<seq<string>>, ps: seq<seq<string>>,
        rest: seq<string>, q: seq<string>)
    requires k < |Alts(n)| && FindIndex(Alts(n), Id(Alts(n)[k])) == k && Alts(n)[k].children != []
    requires |ps| == |below| == |ns| && forall i :: 0 <= i < |ps| ==> ps[i] == [Id(Alts(n)[k])] + below[i]
    requires rest != [] && q == [Id(Alts(n)[k])] + rest && Reached(Alts(n)[k].children[0], ns, below, rest)
    ensures Reached(n, ns, ps, q)
  {
    hide Before, FindIndex;
    var c := Alts(n)[k].children[0];
    var i :| 0 <= i < |below| && Id(ns[i]) == rest[|rest| - 1] && AtOrBefore(c, below[i], rest);
    if below[i] != rest {
      BeforeBoth(n, k, below[i], rest);
    }
    assert AtOrBefore(n, ps[i], q);
  }

  lemma StartsThrough(n: Node, k: nat, q: seq<string>)
    requires q != [] && k < |Alts(n)| && Through(n, q) == k
    ensures q[0] == Id(Alts(n)[k])
  {
  }

  lemma ReachedBelow(c: Node, fields: seq<string>, v6: V6Parser, v6pre: V6Prefix, ns: seq<Node>,
        ps: seq<seq<string>>, q: seq<string>)
    requires Firsts(c, |Alts(c)|, [], fields, v6, v6pre, ns, ps) && Leads(c, q, fields, v6, v6pre)
    ensures q != [] && |ps| == |ns| && Reached(c, ns, ps, q)
  {
    hide Reached, Before;
    NodeAtId(c, q);
    assert Covered(c, |Alts(c)|, [], fields, v6, v6pre, q);
  }

  /** "?" lists the nodes at the paths ps: in the order of the tree, and for every path that may
      be completed, the first node with the id that it leads to. */
  lemma HelpIsFirst(n: Node, fields: seq<string>, v6: V6Parser, v6pre: V6Prefix) returns (ps: seq<seq<string>>)
    requires WellFormed(n) && fields != []
    ensures Firsts(n, |Alts(n)|, [], fields, v6, v6pre, HelpNodes(n, fields, v6, v6pre), ps)
    ensures forall q :: Covered(n, |Alts(n)|, [], fields, v6, v6pre, q) <==> Leads(n, q, fields, v6, v6pre)
  {
    hide Firsts, Leads;
    ps := AltsFirst(n, |Alts(n)|, fields, v6, v6pre);
    forall q ensures Covered(n, |Alts(n)|, [], fields, v6, v6pre, q) <==> Leads(n, q, fields, v6, v6pre) {
      if Leads(n, q, fields, v6, v6pre) {
        LeadsThrough(n, fields, v6, v6pre, q);
      }
    }
  }

  lemma LeadsThrough(n: Node, fields: seq<string>, v6: V6Parser, v6pre: V6Prefix, q: seq<string>)
    requires Leads(n, q, fields, v6, v6pre)
    ensures q != [] && 0 <= Through(n, q) < |Alts(n)|
  {
    NodeAtId(n, q);
  }
}
