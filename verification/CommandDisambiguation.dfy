// Node.Match: choosing among several matches those that spell a literal out in full.

module CommandDisambiguation {
  import opened Prelude
  import opened Addresses
  import opened CommandTree
  import opened CommandMatch
  import opened CommandMatcher

  // ---------------------------------------------------------------- the greedy filter

  /** What is left of a match after its first t elements. */
  function Suffix(m: Match, t: nat): Option<Match> {
    if t == 0 then Some(m)
    else match m.next
      case None => None
      case Some(m') => Suffix(m', t - 1)
  }

  /** Element t of the match is the literal token itself. */
  predicate ExactAt(m: Match, t: nat, token: string) {
    match Suffix(m, t)
    case None => false
    case Some(s) => s.node.t.Literal? && s.node.value == token
  }

  /** Every element of s is an index below k. */
  predicate Below(s: seq<nat>, k: nat) {
    forall i :: 0 <= i < |s| ==> s[i] < k
  }

  predicate Increasing(s: seq<nat>) {
    forall i, j :: 0 <= i < j < |s| ==> s[i] < s[j]
  }

  function Identity(k: nat): (s: seq<nat>)
    ensures |s| == k && forall i :: 0 <= i < k ==> s[i] == i
  {
    seq(k, i => i)
  }

  function Compose(s: seq<nat>, ps: seq<nat>): (r: seq<nat>)
    requires Below(ps, |s|)
    ensures |r| == |ps| && forall i :: 0 <= i < |ps| ==> r[i] == s[ps[i]]
  {
    seq(|ps|, i requires 0 <= i < |ps| => s[ps[i]])
  }

  function Pick(matches: seq<Match>, s: seq<nat>): (r: seq<Match>)
    requires Below(s, |matches|)
    ensures |r| == |s| && forall i :: 0 <= i < |s| ==> r[i] == matches[s[i]]
  {
    seq(|s|, i requires 0 <= i < |s| => matches[s[i]])
  }

  /** The positions below k in s whose matches are exact at token t. */
  function ExactPositions(matches: seq<Match>, s: seq<nat>, t: nat, token: string, k: nat): (ps: seq<nat>)
    requires k <= |s| && Below(s, |matches|)
    ensures Below(ps, k) && |ps| <= k
  {
    if k == 0 then []
    else
      var ps := ExactPositions(matches, s, t, token, k - 1);
      if ExactAt(matches[s[k - 1]], t, token) then ps + [k - 1] else ps
  }

  /** The positions in s that token t keeps: the exact ones if there are any, otherwise all. */
  function Kept(matches: seq<Match>, s: seq<nat>, t: nat, token: string): (ps: seq<nat>)
    requires Below(s, |matches|)
    ensures Below(ps, |s|) && |ps| <= |s| && (s != [] ==> ps != [])
  {
    var exact := ExactPositions(matches, s, t, token, |s|);
    if exact == [] then Identity(|s|) else exact
  }

  /** The indices of those matches of s that are left after the tokens from t on. */
  function GreedyFrom(matches: seq<Match>, tokens: seq<string>, t: nat, s: seq<nat>): (r: seq<nat>)
    requires t <= |tokens| && Below(s, |matches|)
    ensures Below(r, |matches|) && (s != [] ==> r != [])
    decreases |tokens| - t
  {
    if t == |tokens| then s
    else GreedyFrom(matches, tokens, t + 1, Compose(s, Kept(matches, s, t, tokens[t])))
  }

  /** At each token keep the exact matches if there are any, otherwise all of them. */
  function Greedy(matches: seq<Match>, tokens: seq<string>): seq<Match> {
    Pick(matches, GreedyFrom(matches, tokens, 0, Identity(|matches|)))
  }

  // ---------------------------------------------------------------- what the loop computes

  /** The last round of the loop: the matches it starts with, and the positions among them
      that it keeps. */
  datatype Round = Round(before: seq<nat>, kept: seq<nat>)

  /** The loop, from token t and the matches s on; it stops when at most one is left. */
  function LastRound(matches: seq<Match>, tokens: seq<string>, t: nat, s: seq<nat>): (r: Round)
    requires t < |tokens| && Below(s, |matches|) && |s| <= |matches|
    ensures Below(r.before, |matches|) && |r.before| <= |matches|
    ensures Below(r.kept, |r.before|) && (s != [] ==> r.kept != [])
    decreases |tokens| - t
  {
    var ps := Kept(matches, s, t, tokens[t]);
    if t == |tokens| - 1 || |ps| <= 1 then Round(s, ps)
    else LastRound(matches, tokens, t + 1, Compose(s, ps))
  }

  lemma {:induction false} IncreasingBound(s: seq<nat>, i: nat)
    requires Increasing(s) && i < |s|
    ensures s[i] >= i
  {
    if i > 0 {
      IncreasingBound(s, i - 1);
    }
  }

  lemma {:induction false} ExactIncreasing(matches: seq<Match>, s: seq<nat>, t: nat, token: string, k: nat)
    requires k <= |s| && Below(s, |matches|)
    ensures Increasing(ExactPositions(matches, s, t, token, k))
  {
    if k > 0 {
      ExactIncreasing(matches, s, t, token, k - 1);
    }
  }

  lemma {:induction false} LastRoundIncreasing(matches: seq<Match>, tokens: seq<string>, t: nat, s: seq<nat>)
    requires t < |tokens| && Below(s, |matches|) && |s| <= |matches| && Increasing(s)
    ensures var r := LastRound(matches, tokens, t, s); Increasing(r.before) && Increasing(r.kept)
    decreases |tokens| - t
  {
    var ps := Kept(matches, s, t, tokens[t]);
    ExactIncreasing(matches, s, t, tokens[t], |s|);
    if t < |tokens| - 1 && |ps| > 1 {
      LastRoundIncreasing(matches, tokens, t + 1, Compose(s, ps));
    }
  }

  /** The loop keeps positions in the list of the matches left, but reads its result at
      these positions from the list of all matches. */
  function Disambiguated(matches: seq<Match>, tokens: seq<string>): seq<Match>
    requires tokens != []
  {
    var r := LastRound(matches, tokens, 0, Identity(|matches|));
    Pick(matches, r.kept)
  }

  // ---------------------------------------------------------------- when the two agree

  /** Once one match is left, later tokens change nothing. */
  lemma {:induction false} OneIsFinal(matches: seq<Match>, tokens: seq<string>, t: nat, s: seq<nat>)
    requires t <= |tokens| && Below(s, |matches|) && |s| == 1
    ensures GreedyFrom(matches, tokens, t, s) == s
    decreases |tokens| - t
  {
    hide Kept;
    if t < |tokens| {
      var ps := Kept(matches, s, t, tokens[t]);
      assert ps == [0];
      assert Compose(s, ps) == s;
      OneIsFinal(matches, tokens, t + 1, s);
    }
  }

  /** The greedy filter ends with what the last round of the loop keeps. */
  lemma {:induction false} GreedyIsLastRound(matches: seq<Match>, tokens: seq<string>, t: nat, s: seq<nat>)
    requires t < |tokens| && Below(s, |matches|) && |s| <= |matches| && s != []
    ensures var r := LastRound(matches, tokens, t, s);
      GreedyFrom(matches, tokens, t, s) == Compose(r.before, r.kept)
    decreases |tokens| - t
  {
    var ps := Kept(matches, s, t, tokens[t]);
    if |ps| <= 1 {
      OneIsFinal(matches, tokens, t + 1, Compose(s, ps));
    } else if t < |tokens| - 1 {
      GreedyIsLastRound(matches, tokens, t + 1, Compose(s, ps));
    }
  }

  ghost predicate DistinctMatches(matches: seq<Match>) {
    forall i, j :: 0 <= i < j < |matches| ==> matches[i] != matches[j]
  }

  /** The guard under which reading by position is right: before the last token the loop
      looks at, no match was dropped that stands before the last match finally kept. */
  ghost predicate Aligned(matches: seq<Match>, tokens: seq<string>)
    requires matches != [] && tokens != []
  {
    var before := LastRound(matches, tokens, 0, Identity(|matches|)).before;
    var final := GreedyFrom(matches, tokens, 0, Identity(|matches|));
    forall i :: 0 <= i <= final[|final| - 1] ==> i in before
  }

  /** An increasing list that holds every number up to its element at p is the identity there. */
  lemma {:induction false} PrefixIsIdentity(s: seq<nat>, p: nat)
    requires Increasing(s) && p < |s|
    ensures (forall i :: 0 <= i <= s[p] ==> i in s) <==> s[p] == p
  {
    IncreasingBound(s, p);
    if s[p] == p {
      forall i | 0 <= i <= p ensures i in s {
        IdentityBelow(s, p, i);
      }
    } else if forall i :: 0 <= i <= s[p] ==> i in s {
      PigeonHole(s, p);
    }
  }

  lemma {:induction false} IdentityBelow(s: seq<nat>, p: nat, i: nat)
    requires Increasing(s) && i <= p < |s| && s[p] == p
    ensures s[i] == i
    decreases p
  {
    if i < p {
      IncreasingBound(s, p - 1);
      IdentityBelow(s, p - 1, i);
    }
  }

  lemma {:induction false} PigeonHole(s: seq<nat>, p: nat)
    requires Increasing(s) && p < |s| && forall i :: 0 <= i <= s[p] ==> i in s
    ensures s[p] == p
    decreases p
  {
    if p == 0 {
      assert 0 in s;
    } else {
      forall i | 0 <= i <= s[p - 1] ensures i in s {
        assert s[p - 1] < s[p];
      }
      PigeonHole(s, p - 1);
      if s[p] > p {
        assert p in s;
        var j :| 0 <= j < |s| && s[j] == p;
        assert false;
      }
    }
  }

  /** Reading at the positions ps is reading at the survivors at these positions exactly
      when the last of them is where it was. */
  lemma PickIff(matches: seq<Match>, s: seq<nat>, ps: seq<nat>)
    requires DistinctMatches(matches) && Below(s, |matches|) && Increasing(s)
    requires Below(ps, |s|) && Increasing(ps) && ps != [] && Below(ps, |matches|)
    ensures Pick(matches, ps) == Pick(matches, Compose(s, ps)) <==> s[ps[|ps| - 1]] == ps[|ps| - 1]
  {
    var k := |ps| - 1;
    var a, b := Pick(matches, ps), Pick(matches, Compose(s, ps));
    if s[ps[k]] == ps[k] {
      forall i | 0 <= i < |ps| ensures a[i] == b[i] {
        IdentityBelow(s, ps[k], ps[i]);
      }
    } else {
      assert a[k] != b[k];
    }
  }

  /** Match picks what the greedy filter picks exactly when the guard holds. */
  lemma DisambiguationIff(matches: seq<Match>, tokens: seq<string>)
    requires matches != [] && tokens != [] && DistinctMatches(matches)
    ensures Disambiguated(matches, tokens) == Greedy(matches, tokens) <==> Aligned(matches, tokens)
  {
    var all := Identity(|matches|);
    var r := LastRound(matches, tokens, 0, all);
    LastRoundIncreasing(matches, tokens, 0, all);
    GreedyIsLastRound(matches, tokens, 0, all);
    PickIff(matches, r.before, r.kept);
    PrefixIsIdentity(r.before, r.kept[|r.kept| - 1]);
  }

  /** Whether or not the guard holds, the result is a non-empty sublist of the matches. */
  lemma DisambiguatedIsSublist(matches: seq<Match>, tokens: seq<string>) returns (ps: seq<nat>)
    requires matches != [] && tokens != []
    ensures ps != [] && Increasing(ps) && Below(ps, |matches|)
    ensures Disambiguated(matches, tokens) == Pick(matches, ps)
  {
    var r := LastRound(matches, tokens, 0, Identity(|matches|));
    LastRoundIncreasing(matches, tokens, 0, Identity(|matches|));
    ps := r.kept;
  }

  // ---------------------------------------------------------------- guards on the matches

  /** Some matches are exact at token t and some are not. */
  ghost predicate Separates(matches: seq<Match>, t: nat, token: string) {
    exists i, j :: 0 <= i < |matches| && 0 <= j < |matches| && ExactAt(matches[i], t, token) &&
      !ExactAt(matches[j], t, token)
  }

  lemma {:induction false} AllExact(matches: seq<Match>, t: nat, token: string, k: nat)
    requires k <= |matches| && forall i :: 0 <= i < |matches| ==> ExactAt(matches[i], t, token)
    ensures ExactPositions(matches, Identity(|matches|), t, token, k) == Identity(k)
  {
    if k > 0 {
      AllExact(matches, t, token, k - 1);
    }
  }

  lemma {:induction false} NoneExact(matches: seq<Match>, t: nat, token: string, k: nat)
    requires k <= |matches| && forall i :: 0 <= i < |matches| ==> !ExactAt(matches[i], t, token)
    ensures ExactPositions(matches, Identity(|matches|), t, token, k) == []
  {
    if k > 0 {
      NoneExact(matches, t, token, k - 1);
    }
  }

  /** A token that separates no matches keeps all of them. */
  lemma KeepsAll(matches: seq<Match>, t: nat, token: string)
    requires !Separates(matches, t, token)
    ensures Kept(matches, Identity(|matches|), t, token) == Identity(|matches|)
  {
    hide ExactAt;
    if forall i :: 0 <= i < |matches| ==> !ExactAt(matches[i], t, token) {
      NoneExact(matches, t, token, |matches|);
    } else {
      AllExact(matches, t, token, |matches|);
    }
  }

  lemma {:induction false} NothingDropped(matches: seq<Match>, tokens: seq<string>, t: nat)
    requires t < |tokens|
    requires forall u :: t <= u < |tokens| - 1 ==> !Separates(matches, u, tokens[u])
    ensures LastRound(matches, tokens, t, Identity(|matches|)).before == Identity(|matches|)
    decreases |tokens| - t
  {
    if t < |tokens| - 1 {
      KeepsAll(matches, t, tokens[t]);
      var all := Identity(|matches|);
      assert Compose(all, all) == all;
      NothingDropped(matches, tokens, t + 1);
    }
  }

  /** If only the last token separates exact matches from others, Match picks what the greedy
      filter picks. */
  lemma LastTokenDecides(matches: seq<Match>, tokens: seq<string>)
    requires matches != [] && tokens != [] && DistinctMatches(matches)
    requires forall t :: 0 <= t < |tokens| - 1 ==> !Separates(matches, t, tokens[t])
    ensures Aligned(matches, tokens) && Disambiguated(matches, tokens) == Greedy(matches, tokens)
  {
    hide Separates, LastRound, GreedyFrom;
    NothingDropped(matches, tokens, 0);
    forall i | 0 <= i < |matches| ensures i in Identity(|matches|) {
      assert Identity(|matches|)[i] == i;
    }
    DisambiguationIff(matches, tokens);
  }

  // ---------------------------------------------------------------- lines typed in full

  /** The path of the literals that the tokens spell out. */
  function LiteralPath(tokens: seq<string>): (p: seq<string>)
    ensures |p| == |tokens| && forall i :: 0 <= i < |p| ==> p[i] == "literal:" + tokens[i]
  {
    seq(|tokens|, i requires 0 <= i < |tokens| => "literal:" + tokens[i])
  }

  lemma {:induction false} ExactAtId(m: Match, t: nat, token: string)
    requires t < |ChainIds(m)|
    ensures ExactAt(m, t, token) <==> ChainIds(m)[t] == "literal:" + token
    decreases t
  {
    if t == 0 {
      var n := Node(Literal, token, "", None, None, [], [], false);
      SameId(m.node, n);
    } else {
      ExactAtId(m.next.value, t - 1, token);
    }
  }

  /** All positions that ExactPositions lists are exact, and it lists all that are. */
  lemma {:induction false} ExactPositionsAre(matches: seq<Match>, s: seq<nat>, t: nat, token: string, k: nat, i: nat)
    requires k <= |s| && Below(s, |matches|)
    ensures i in ExactPositions(matches, s, t, token, k) <==> i < k && ExactAt(matches[s[i]], t, token)
  {
    if k > 0 {
      ExactPositionsAre(matches, s, t, token, k - 1, i);
    }
  }

  /** The matches of s agree with the path p on their first t elements. */
  ghost predicate AgreeUpTo(matches: seq<Match>, s: seq<nat>, p: seq<string>, t: nat)
    requires Below(s, |matches|)
  {
    forall i :: 0 <= i < |s| ==>
      t <= |p| == |ChainIds(matches[s[i]])| && ChainIds(matches[s[i]])[..t] == p[..t]
  }

  /** One token of a line typed in full keeps the match it spells out, and only such as agree
      with it. */
  lemma FullToken(matches: seq<Match>, tokens: seq<string>, t: nat, s: seq<nat>, k: nat)
    requires t < |tokens| && Below(s, |matches|) && AgreeUpTo(matches, s, LiteralPath(tokens), t)
    requires k in s && ChainIds(matches[k]) == LiteralPath(tokens)
    ensures var r := Compose(s, Kept(matches, s, t, tokens[t]));
      AgreeUpTo(matches, r, LiteralPath(tokens), t + 1) && k in r
  {
    hide ExactAt, Kept;
    var p, token := LiteralPath(tokens), tokens[t];
    var exact := ExactPositions(matches, s, t, token, |s|);
    var j :| 0 <= j < |s| && s[j] == k;
    ExactAtId(matches[k], t, token);
    ExactPositionsAre(matches, s, t, token, |s|, j);
    KeptIfExact(matches, s, t, token, j);
    var r := Compose(s, exact);
    var i :| 0 <= i < |exact| && exact[i] == j;
    assert r[i] == k;
    forall l | 0 <= l < |r|
      ensures t + 1 <= |p| == |ChainIds(matches[r[l]])| && ChainIds(matches[r[l]])[..t + 1] == p[..t + 1]
    {
      assert exact[l] in exact;
      ExactPositionsAre(matches, s, t, token, |s|, exact[l]);
      ExactAtId(matches[r[l]], t, token);
      OneLonger(ChainIds(matches[r[l]]), p, t);
    }
  }

  lemma KeptIfExact(matches: seq<Match>, s: seq<nat>, t: nat, token: string, j: nat)
    requires Below(s, |matches|) && j in ExactPositions(matches, s, t, token, |s|)
    ensures Kept(matches, s, t, token) == ExactPositions(matches, s, t, token, |s|)
  {
  }

  lemma OneLonger(a: seq<string>, b: seq<string>, t: nat)
    requires t < |a| && t < |b| && a[..t] == b[..t] && a[t] == b[t]
    ensures a[..t + 1] == b[..t + 1]
  {
    assert a[..t + 1] == a[..t] + [a[t]];
    assert b[..t + 1] == b[..t] + [b[t]];
  }

  lemma {:induction false} FullTokens(matches: seq<Match>, tokens: seq<string>, t: nat, s: seq<nat>, k: nat)
    requires t <= |tokens| && Below(s, |matches|) && AgreeUpTo(matches, s, LiteralPath(tokens), t)
    requires k in s && ChainIds(matches[k]) == LiteralPath(tokens)
    ensures var r := GreedyFrom(matches, tokens, t, s);
      AgreeUpTo(matches, r, LiteralPath(tokens), |tokens|) && k in r
    decreases |tokens| - t
  {
    hide AgreeUpTo, Kept;
    if t < |tokens| {
      FullToken(matches, tokens, t, s, k);
      FullTokens(matches, tokens, t + 1, Compose(s, Kept(matches, s, t, tokens[t])), k);
    }
  }

  lemma {:induction false} GreedyIncreasing(matches: seq<Match>, tokens: seq<string>, t: nat, s: seq<nat>)
    requires t <= |tokens| && Below(s, |matches|) && Increasing(s)
    ensures Increasing(GreedyFrom(matches, tokens, t, s))
    decreases |tokens| - t
  {
    if t < |tokens| {
      ExactIncreasing(matches, s, t, tokens[t], |s|);
      GreedyIncreasing(matches, tokens, t + 1, Compose(s, Kept(matches, s, t, tokens[t])));
    }
  }

  lemma OnlyOne(r: seq<nat>, k: nat)
    requires Increasing(r) && k in r && forall i :: 0 <= i < |r| ==> r[i] == k
    ensures r == [k]
  {
    IncreasingGap(r, |r| - 1);
  }

  lemma {:induction false} IncreasingGap(s: seq<nat>, i: nat)
    requires Increasing(s) && i < |s|
    ensures s[i] >= s[0] + i
  {
    if i > 0 {
      IncreasingGap(s, i - 1);
    }
  }

  /** Matches of one line, no path twice. */
  ghost predicate DistinctPaths(matches: seq<Match>, k: nat) {
    && (forall i :: 0 <= i < |matches| ==> |ChainIds(matches[i])| == k)
    && (forall i, j :: 0 <= i < j < |matches| ==> ChainIds(matches[i]) != ChainIds(matches[j]))
  }

  /** For a line that spells out a path of literals the greedy filter leaves just its match. */
  lemma GreedyFindsLiterals(matches: seq<Match>, tokens: seq<string>, k: nat)
    requires DistinctPaths(matches, |tokens|) && k < |matches| && ChainIds(matches[k]) == LiteralPath(tokens)
    ensures Greedy(matches, tokens) == [matches[k]]
  {
    hide GreedyFrom;
    var all, p := Identity(|matches|), LiteralPath(tokens);
    assert all[k] == k;
    FullTokens(matches, tokens, 0, all, k);
    GreedyIncreasing(matches, tokens, 0, all);
    var r := GreedyFrom(matches, tokens, 0, all);
    forall i | 0 <= i < |r| ensures r[i] == k {
      assert ChainIds(matches[r[i]])[..|tokens|] == ChainIds(matches[r[i]]);
      assert p[..|tokens|] == p;
    }
    OnlyOne(r, k);
  }

  /** The matches of a line have distinct paths of its length. */
  lemma MatchesHaveDistinctPaths(n: Node, tokens: seq<string>, v6: V6Parser)
    requires WellFormed(n) && tokens != []
    ensures DistinctPaths(MatchNodes(n, tokens, v6), |tokens|)
    ensures DistinctMatches(MatchNodes(n, tokens, v6))
  {
    var ms := MatchNodes(n, tokens, v6);
    MatchOrder(n, tokens, v6);
    MatchAltsGood(n, |Alts(n)|, tokens, v6);
    forall i | 0 <= i < |ms| ensures |ChainIds(ms[i])| == |tokens| {
      assert ms[i] in ms;
    }
  }

  lemma LiteralsAccept(tokens: seq<string>, v6: V6Parser)
    ensures AcceptsPath(LiteralPath(tokens), tokens, v6)
  {
    var p := LiteralPath(tokens);
    forall i | 0 <= i < |p| ensures AcceptsId(p[i], tokens[i], v6) {
      var n := Node(Literal, tokens[i], "", None, None, [], [], false);
      AtomAccepts(n, tokens[i], v6);
    }
  }

  // ---------------------------------------------------------------- the loop

  lemma {:induction false} SuffixExists(m: Match, t: nat)
    requires t < |ChainIds(m)|
    ensures Suffix(m, t).Some?
  {
    if t > 0 {
      SuffixExists(m.next.value, t - 1);
    }
  }

  lemma {:induction false} SuffixNext(m: Match, t: nat)
    requires Suffix(m, t).Some?
    ensures Suffix(m, t + 1) == Suffix(m, t).value.next
  {
    if t > 0 {
      SuffixNext(m.next.value, t - 1);
    }
  }

  /** Node.Match on the fields of a line. The chain of a match is never left while a token
      is still to be looked at, so ms[i].value never fails. */
  method MatchFields(n: Node, tokens: seq<string>, v6: V6Parser) returns (r: seq<Match>)
    requires WellFormed(n)
    ensures tokens == [] ==> r == []
    ensures tokens != [] ==> var matches := MatchNodes(n, tokens, v6);
      r == if |matches| <= 1 then matches else Disambiguated(matches, tokens)
  {
    if |tokens| == 0 {
      return [];
    }
    var matches := MatchTokens(n, tokens, v6);
    if |matches| <= 1 {
      return matches;
    }
    MatchAltsGood(n, |Alts(n)|, tokens, v6);
    forall i | 0 <= i < |matches| ensures |tokens| - 1 < |ChainIds(matches[i])| {
      assert matches[i] in matches;
    }
    r := Disambiguate(matches, tokens);
  }

  /** ms is what is left after t elements of the matches s. */
  ghost predicate Suffixes(matches: seq<Match>, s: seq<nat>, t: nat, ms: seq<Option<Match>>)
    requires Below(s, |matches|)
  {
    |ms| == |s| && forall i :: 0 <= i < |ms| ==> ms[i] == Suffix(matches[s[i]], t)
  }

  ghost predicate LongerThan(matches: seq<Match>, t: nat) {
    forall i :: 0 <= i < |matches| ==> t < |ChainIds(matches[i])|
  }

  /** Where the loop stands before token t: s are the matches left, ms their chains, and what
      the loop has still to do from here on is what it has to do in all. */
  ghost predicate AtRound(matches: seq<Match>, tokens: seq<string>, t: nat, s: seq<nat>, ms: seq<Option<Match>>)
    requires t < |tokens|
  {
    && Below(s, |matches|) && |s| <= |matches| && s != []
    && Suffixes(matches, s, t, ms)
    && LastRound(matches, tokens, t, s) == LastRound(matches, tokens, 0, Identity(|matches|))
  }

  lemma RoundDone(matches: seq<Match>, tokens: seq<string>, t: nat, s: seq<nat>, ms: seq<Option<Match>>)
    requires matches != [] && t < |tokens| && AtRound(matches, tokens, t, s, ms)
    requires t == |tokens| - 1 || |Kept(matches, s, t, tokens[t])| <= 1
    ensures Disambiguated(matches, tokens) == Pick(matches, Kept(matches, s, t, tokens[t]))
  {
  }

  lemma RoundStep(matches: seq<Match>, tokens: seq<string>, t: nat, s: seq<nat>, ms: seq<Option<Match>>,
        rest: seq<Option<Match>>)
    requires matches != [] && t < |tokens| && AtRound(matches, tokens, t, s, ms)
    requires t < |tokens| - 1 && |Kept(matches, s, t, tokens[t])| > 1
    requires Suffixes(matches, Compose(s, Kept(matches, s, t, tokens[t])), t + 1, rest)
    ensures AtRound(matches, tokens, t + 1, Compose(s, Kept(matches, s, t, tokens[t])), rest)
  {
  }

  method Disambiguate(matches: seq<Match>, tokens: seq<string>) returns (disambiguated: seq<Match>)
    requires matches != [] && tokens != [] && LongerThan(matches, |tokens| - 1)
    ensures disambiguated == Disambiguated(matches, tokens)
  {
    disambiguated := [];
    var ms: seq<Option<Match>> := seq(|matches|, i requires 0 <= i < |matches| => Some(matches[i]));
    ghost var s := Identity(|matches|);
    var t := 0;
    while t < |tokens|
      invariant t <= |tokens|
      invariant t < |tokens| ==> AtRound(matches, tokens, t, s, ms)
      invariant t == |tokens| ==> disambiguated == Disambiguated(matches, tokens)
    {
      ghost var ps := Kept(matches, s, t, tokens[t]);
      ghost var before := ms;
      disambiguated, ms := OneRound(matches, tokens[t], ms, s, t);
      if |disambiguated| <= 1 {
        RoundDone(matches, tokens, t, s, before);
        break;
      }
      if t == |tokens| - 1 {
        RoundDone(matches, tokens, t, s, before);
      } else {
        RoundStep(matches, tokens, t, s, before, ms);
      }
      s := Compose(s, ps);
      t := t + 1;
    }
  }

  lemma Element(matches: seq<Match>, s: seq<nat>, t: nat, token: string, ms: seq<Option<Match>>, i: nat)
    requires Below(s, |matches|) && Suffixes(matches, s, t, ms) && LongerThan(matches, t) && i < |ms|
    ensures ms[i].Some? && Suffix(matches[s[i]], t + 1) == ms[i].value.next
    ensures ExactAt(matches[s[i]], t, token) <==> ms[i].value.node.t.Literal? && ms[i].value.node.value == token
  {
    SuffixExists(matches[s[i]], t);
    SuffixNext(matches[s[i]], t);
  }

  /** The elements of ms at the positions ps, each without its first element. */
  function Rest(ms: seq<Option<Match>>, ps: seq<nat>): (r: seq<Option<Match>>)
    requires Below(ps, |ms|)
    ensures |r| == |ps|
    ensures forall i :: 0 <= i < |ps| ==> r[i] == match ms[ps[i]] case None => None case Some(m) => m.next
  {
    seq(|ps|, i requires 0 <= i < |ps| => match ms[ps[i]] case None => None case Some(m) => m.next)
  }

  lemma RestSuffixes(matches: seq<Match>, s: seq<nat>, t: nat, ms: seq<Option<Match>>, ps: seq<nat>)
    requires Below(s, |matches|) && Suffixes(matches, s, t, ms) && LongerThan(matches, t) && Below(ps, |s|)
    ensures Suffixes(matches, Compose(s, ps), t + 1, Rest(ms, ps))
  {
    forall i | 0 <= i < |ps| ensures Rest(ms, ps)[i] == Suffix(matches[Compose(s, ps)[i]], t + 1) {
      Element(matches, s, t, "", ms, ps[i]);
    }
  }

  /** One more position in each of the lists of a round. */
  lemma RoundSteps(matches: seq<Match>, ms: seq<Option<Match>>, ps: seq<nat>, i: nat)
    requires i < |ms| <= |matches| && Below(ps, i)
    ensures Below(ps + [i], |ms|) && Pick(matches, ps + [i]) == Pick(matches, ps) + [matches[i]]
    ensures ms[i].Some? ==> Rest(ms, ps + [i]) == Rest(ms, ps) + [ms[i].value.next]
    ensures Pick(matches, Identity(i + 1)) == Pick(matches, Identity(i)) + [matches[i]]
    ensures ms[i].Some? ==> Rest(ms, Identity(i + 1)) == Rest(ms, Identity(i)) + [ms[i].value.next]
  {
  }

  /** One round: of the matches left, the exact ones if there are any, otherwise all of them;
      each with its root, read by position, and what is left of its chain. */
  method OneRound(matches: seq<Match>, token: string, ms: seq<Option<Match>>, ghost s: seq<nat>, ghost t: nat)
    returns (roots: seq<Match>, rest: seq<Option<Match>>)
    requires Below(s, |matches|) && |ms| == |s| <= |matches| && Suffixes(matches, s, t, ms)
    requires LongerThan(matches, t)
    ensures var ps := Kept(matches, s, t, token);
      roots == Pick(matches, ps) && Suffixes(matches, Compose(s, ps), t + 1, rest)
  {
    hide Suffixes, Compose;
    var exactRoots, nonExactRoots: seq<Match> := [], [];
    var exactMatches, nonExactMatches: seq<Option<Match>> := [], [];
    for i := 0 to |ms|
      invariant exactRoots == Pick(matches, ExactPositions(matches, s, t, token, i))
      invariant exactMatches == Rest(ms, ExactPositions(matches, s, t, token, i))
      invariant exactRoots == [] ==> nonExactRoots == Pick(matches, Identity(i))
      invariant exactRoots == [] ==> nonExactMatches == Rest(ms, Identity(i))
    {
      Element(matches, s, t, token, ms, i);
      RoundSteps(matches, ms, ExactPositions(matches, s, t, token, i), i);
      var m := ms[i].value;
      if m.node.t.Literal? && m.node.value == token {
        exactRoots := exactRoots + [matches[i]];
        exactMatches := exactMatches + [m.next];
      } else {
        nonExactRoots := nonExactRoots + [matches[i]];
        nonExactMatches := nonExactMatches + [m.next];
      }
    }
    RestSuffixes(matches, s, t, ms, Kept(matches, s, t, token));
    if |exactRoots| > 0 {
      roots, rest := exactRoots, exactMatches;
    } else {
      roots, rest := nonExactRoots, nonExactMatches;
    }
  }
}
