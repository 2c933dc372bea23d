// What choosing exact literals token by token amounts to: keeping the matches that are best
// when matches are compared token by token, the first token first.

module CommandExactness {
  import opened Prelude
  import opened CommandTree
  import opened CommandMatch
  import opened CommandDisambiguation

  /** Element t of the match is the literal that the token spells out. */
  predicate Spelled(m: Match, t: nat, token: string) {
    t < |ChainIds(m)| && ChainIds(m)[t] == "literal:" + token
  }

  /** The first k tokens spell out the same elements of a and b. */
  predicate Alike(a: Match, b: Match, tokens: seq<string>, k: nat)
    requires k <= |tokens|
  {
    forall l :: 0 <= l < k ==> (Spelled(a, l, tokens[l]) <==> Spelled(b, l, tokens[l]))
  }

  /** a is better than b: at the first of k tokens where they differ, a is spelled out. */
  ghost predicate Better(a: Match, b: Match, tokens: seq<string>, k: nat)
    requires k <= |tokens|
  {
    exists t :: 0 <= t < k && BetterAt(a, b, tokens, t)
  }

  predicate BetterAt(a: Match, b: Match, tokens: seq<string>, t: nat)
    requires t < |tokens|
  {
    Alike(a, b, tokens, t) && Spelled(a, t, tokens[t]) && !Spelled(b, t, tokens[t])
  }

  /** No match is better than match i. */
  ghost predicate Best(matches: seq<Match>, tokens: seq<string>, k: nat, i: int)
    requires k <= |tokens|
  {
    0 <= i < |matches| && forall j :: 0 <= j < |matches| ==> !Better(matches[j], matches[i], tokens, k)
  }

  /** s lists the best matches by the first k tokens, in order. */
  ghost predicate ListsBest(matches: seq<Match>, tokens: seq<string>, k: nat, s: seq<nat>)
    requires k <= |tokens|
  {
    && Increasing(s) && Below(s, |matches|)
    && forall i :: Best(matches, tokens, k, i) <==> i in s
  }

  lemma {:induction false} ExactIsSpelled(m: Match, t: nat, token: string)
    ensures ExactAt(m, t, token) <==> Spelled(m, t, token)
  {
    if t == 0 {
      SameId(m.node, Node(Literal, token, "", None, None, [], [], false));
    } else if m.next.Some? {
      ExactIsSpelled(m.next.value, t - 1, token);
    }
  }

  /** Two matches that differ somewhere differ at a first place, where one is better. */
  lemma {:induction false} OneIsBetter(a: Match, b: Match, tokens: seq<string>, k: nat)
    requires k <= |tokens| && !Alike(a, b, tokens, k)
    ensures Better(a, b, tokens, k) || Better(b, a, tokens, k)
  {
    hide Spelled;
    if Alike(a, b, tokens, k - 1) {
      assert BetterAt(a, b, tokens, k - 1) || BetterAt(b, a, tokens, k - 1);
    } else {
      OneIsBetter(a, b, tokens, k - 1);
    }
  }

  lemma LikeIsAsGood(c: Match, a: Match, b: Match, tokens: seq<string>, k: nat)
    requires k <= |tokens| && Alike(a, b, tokens, k)
    ensures Better(c, a, tokens, k) <==> Better(c, b, tokens, k)
  {
    hide Spelled;
    forall t | 0 <= t < k ensures BetterAt(c, a, tokens, t) <==> BetterAt(c, b, tokens, t) {
    }
  }

  /** The best matches are those like one of them. */
  lemma BestAreAlike(matches: seq<Match>, tokens: seq<string>, k: nat, i: nat, j: nat)
    requires k <= |tokens| && Best(matches, tokens, k, i) && j < |matches|
    ensures Best(matches, tokens, k, j) <==> Alike(matches[i], matches[j], tokens, k)
  {
    hide Alike, Better;
    if Alike(matches[i], matches[j], tokens, k) {
      forall l | 0 <= l < |matches|
        ensures Better(matches[l], matches[i], tokens, k) <==> Better(matches[l], matches[j], tokens, k)
      {
        LikeIsAsGood(matches[l], matches[i], matches[j], tokens, k);
      }
    } else if Best(matches, tokens, k, j) {
      OneIsBetter(matches[i], matches[j], tokens, k);
    }
  }

  /** Whether one more token leaves a match among the best. */
  lemma BestStep(matches: seq<Match>, tokens: seq<string>, t: nat, i: nat)
    requires t < |tokens| && i < |matches|
    ensures Best(matches, tokens, t + 1, i) <==>
      && Best(matches, tokens, t, i)
      && (Spelled(matches[i], t, tokens[t]) ||
          forall j :: Best(matches, tokens, t, j) ==> !Spelled(matches[j], t, tokens[t]))
  {
    hide Spelled, Best;
    BestUnfold(matches, tokens, t, i);
    if Best(matches, tokens, t, i) {
      forall j | 0 <= j < |matches|
        ensures BetterAt(matches[j], matches[i], tokens, t) <==>
          Best(matches, tokens, t, j) && Spelled(matches[j], t, tokens[t]) && !Spelled(matches[i], t, tokens[t])
      {
        BestAreAlike(matches, tokens, t, i, j);
      }
      assert forall j :: Best(matches, tokens, t, j) ==> 0 <= j < |matches| by {
        BestBounds(matches, tokens, t);
      }
    }
  }

  lemma BestUnfold(matches: seq<Match>, tokens: seq<string>, t: nat, i: nat)
    requires t < |tokens| && i < |matches|
    ensures Best(matches, tokens, t + 1, i) <==>
      Best(matches, tokens, t, i) && forall j :: 0 <= j < |matches| ==> !BetterAt(matches[j], matches[i], tokens, t)
  {
    hide BetterAt;
    forall j | 0 <= j < |matches|
      ensures Better(matches[j], matches[i], tokens, t + 1) <==>
        Better(matches[j], matches[i], tokens, t) || BetterAt(matches[j], matches[i], tokens, t)
    {
    }
  }

  lemma BestBounds(matches: seq<Match>, tokens: seq<string>, t: nat)
    requires t <= |tokens|
    ensures forall j :: Best(matches, tokens, t, j) ==> 0 <= j < |matches|
  {
  }

  // ---------------------------------------------------------------- the greedy filter

  /** What a token keeps of the best matches so far are the best with that token. */
  lemma KeptAreBest(matches: seq<Match>, tokens: seq<string>, t: nat, s: seq<nat>)
    requires t < |tokens| && ListsBest(matches, tokens, t, s)
    ensures ListsBest(matches, tokens, t + 1, Compose(s, Kept(matches, s, t, tokens[t])))
  {
    hide Best, Spelled, Kept, ExactPositions;
    var ps := Kept(matches, s, t, tokens[t]);
    var r := Compose(s, ps);
    KeptIncreasing(matches, s, t, tokens[t]);
    BestBounds(matches, tokens, t);
    BestBounds(matches, tokens, t + 1);
    forall i ensures Best(matches, tokens, t + 1, i) <==> i in r {
      if 0 <= i < |matches| {
        BestStep(matches, tokens, t, i);
        KeptMembers(matches, s, t, tokens[t], i);
      }
    }
  }

  lemma KeptIncreasing(matches: seq<Match>, s: seq<nat>, t: nat, token: string)
    requires Below(s, |matches|)
    ensures Increasing(Kept(matches, s, t, token))
  {
    ExactIncreasing(matches, s, t, token, |s|);
  }

  /** A token keeps those of s that it spells out, or all of s if it spells out none. */
  lemma KeptMembers(matches: seq<Match>, s: seq<nat>, t: nat, token: string, i: nat)
    requires Below(s, |matches|) && i < |matches|
    ensures i in Compose(s, Kept(matches, s, t, token)) <==>
      i in s && (Spelled(matches[i], t, token) || forall j :: j in s ==> !Spelled(matches[j], t, token))
  {
    hide Spelled, ExactPositions, Increasing;
    var exact, r := ExactPositions(matches, s, t, token, |s|), Compose(s, Kept(matches, s, t, token));
    forall a | 0 <= a < |s| ensures a in exact <==> Spelled(matches[s[a]], t, token) {
      ExactPositionsAre(matches, s, t, token, |s|, a);
      ExactIsSpelled(matches[s[a]], t, token);
    }
    if exact == [] {
      assert r == s;
    } else {
      assert exact[0] in exact && s[exact[0]] in s;
      if i in r {
        var b :| 0 <= b < |r| && r[b] == i;
        assert exact[b] in exact;
      }
      if i in s && Spelled(matches[i], t, token) {
        var a :| 0 <= a < |s| && s[a] == i;
        var b :| 0 <= b < |exact| && exact[b] == a;
        assert r[b] == i;
      }
    }
  }

  lemma AllAreBest(matches: seq<Match>, tokens: seq<string>)
    ensures ListsBest(matches, tokens, 0, Identity(|matches|))
  {
    forall i ensures Best(matches, tokens, 0, i) <==> i in Identity(|matches|) {
      if 0 <= i < |matches| {
        assert Identity(|matches|)[i] == i;
      }
    }
  }

  lemma {:induction false} GreedyFromIsBest(matches: seq<Match>, tokens: seq<string>, t: nat, s: seq<nat>)
    requires t <= |tokens| && ListsBest(matches, tokens, t, s)
    ensures ListsBest(matches, tokens, |tokens|, GreedyFrom(matches, tokens, t, s))
    decreases |tokens| - t
  {
    hide ListsBest, Kept;
    if t < |tokens| {
      ListsBelow(matches, tokens, t, s);
      KeptAreBest(matches, tokens, t, s);
      GreedyFromIsBest(matches, tokens, t + 1, Compose(s, Kept(matches, s, t, tokens[t])));
    }
  }

  lemma ListsBelow(matches: seq<Match>, tokens: seq<string>, k: nat, s: seq<nat>)
    requires k <= |tokens| && ListsBest(matches, tokens, k, s)
    ensures Below(s, |matches|)
  {
  }

  /** The greedy filter keeps, in their order, exactly the best matches: compared token by
      token, the first token first, none of the others is better. */
  lemma GreedyIsBest(matches: seq<Match>, tokens: seq<string>) returns (s: seq<nat>)
    ensures ListsBest(matches, tokens, |tokens|, s) && Greedy(matches, tokens) == Pick(matches, s)
  {
    hide ListsBest, GreedyFrom;
    AllAreBest(matches, tokens);
    GreedyFromIsBest(matches, tokens, 0, Identity(|matches|));
    s := GreedyFrom(matches, tokens, 0, Identity(|matches|));
  }

  /** Two matches of which the tokens spell out the same elements are both kept or both
      dropped. */
  lemma AlikeAreKeptAlike(matches: seq<Match>, tokens: seq<string>, i: nat, j: nat)
    requires DistinctMatches(matches) && i < |matches| && j < |matches|
    requires Alike(matches[i], matches[j], tokens, |tokens|)
    ensures matches[i] in Greedy(matches, tokens) <==> matches[j] in Greedy(matches, tokens)
  {
    hide Best, Alike, DistinctMatches, Greedy;
    var s := GreedyIsBest(matches, tokens);
    InPick(matches, s, i);
    InPick(matches, s, j);
    if Best(matches, tokens, |tokens|, i) || Best(matches, tokens, |tokens|, j) {
      AlikeBack(matches[i], matches[j], tokens);
      if Best(matches, tokens, |tokens|, i) {
        BestAreAlike(matches, tokens, |tokens|, i, j);
      } else {
        BestAreAlike(matches, tokens, |tokens|, j, i);
      }
    }
  }

  lemma AlikeBack(a: Match, b: Match, tokens: seq<string>)
    requires Alike(a, b, tokens, |tokens|)
    ensures Alike(b, a, tokens, |tokens|)
  {
  }

  lemma InPick(matches: seq<Match>, s: seq<nat>, i: nat)
    requires DistinctMatches(matches) && Below(s, |matches|) && i < |matches|
    ensures matches[i] in Pick(matches, s) <==> i in s
  {
    if i in s {
      var a :| 0 <= a < |s| && s[a] == i;
      assert Pick(matches, s)[a] == matches[i];
    }
  }

  // ---------------------------------------------------------------- what Match returns

  /** More than one match is best by the first k tokens. */
  ghost predicate Undecided(matches: seq<Match>, tokens: seq<string>, k: nat)
    requires k <= |tokens|
  {
    exists i, j :: i != j && Best(matches, tokens, k, i) && Best(matches, tokens, k, j)
  }

  /** Token t is the last that is looked at: r.before lists the best matches before it, and
      r.kept the positions in r.before of those that are still best with it; before t more
      than one was left, and after it only one, or else it is the last of the line. */
  ghost predicate Decides(matches: seq<Match>, tokens: seq<string>, t: nat, r: Round) {
    && t < |tokens|
    && ListsBest(matches, tokens, t, r.before)
    && Increasing(r.kept) && Below(r.kept, |r.before|) && |r.before| <= |matches|
    && ListsBest(matches, tokens, t + 1, Compose(r.before, r.kept))
    && (forall k :: 0 < k <= t ==> Undecided(matches, tokens, k))
    && (t == |tokens| - 1 || !Undecided(matches, tokens, t + 1))
  }

  lemma UndecidedIff(matches: seq<Match>, tokens: seq<string>, k: nat, s: seq<nat>)
    requires k <= |tokens| && ListsBest(matches, tokens, k, s)
    ensures Undecided(matches, tokens, k) <==> |s| > 1
  {
    hide Best;
    if |s| > 1 {
      assert s[0] in s && s[1] in s;
    }
  }

  lemma {:induction false} LastRoundDecides(matches: seq<Match>, tokens: seq<string>, t: nat, s: seq<nat>)
    returns (u: nat)
    requires t < |tokens| && ListsBest(matches, tokens, t, s) && |s| <= |matches|
    requires forall k :: 0 < k <= t ==> Undecided(matches, tokens, k)
    ensures Below(s, |matches|) && Decides(matches, tokens, u, LastRound(matches, tokens, t, s))
    decreases |tokens| - t
  {
    hide ListsBest, Undecided, Kept;
    ListsBelow(matches, tokens, t, s);
    var ps := Kept(matches, s, t, tokens[t]);
    KeptAreBest(matches, tokens, t, s);
    KeptIncreasing(matches, s, t, tokens[t]);
    UndecidedIff(matches, tokens, t + 1, Compose(s, ps));
    if t == |tokens| - 1 || |ps| <= 1 {
      u := t;
    } else {
      u := LastRoundDecides(matches, tokens, t + 1, Compose(s, ps));
    }
  }

  /** What Match returns when there are several matches: those at the positions that the last
      token looked at keeps, counted among the matches left before it, not among all. */
  lemma DisambiguatedIs(matches: seq<Match>, tokens: seq<string>) returns (t: nat, r: Round)
    requires tokens != []
    ensures Decides(matches, tokens, t, r) && Disambiguated(matches, tokens) == Pick(matches, r.kept)
  {
    hide ListsBest, Undecided;
    AllAreBest(matches, tokens);
    t := LastRoundDecides(matches, tokens, 0, Identity(|matches|));
    r := LastRound(matches, tokens, 0, Identity(|matches|));
  }
}
