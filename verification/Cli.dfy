// The command line interface: registering commands, running lines and completing with TAB.

module Cli {
  import opened Prelude
  import opened Addresses
  import opened CommandTree
  import opened CommandMerge
  import opened CommandMerger
  import opened CommandTypes
  import opened CommandMatch
  import opened CommandMatcher
  import opened CommandDisambiguation
  import opened CommandExactness
  import opened CommandCompletion
  import opened CommandGrammar
  import opened CommandParser
  import opened CommandDeclaration
  import opened Lines

  // ---------------------------------------------------------------- registering

  /** Only declarations whose choices are flat and free of repetitions are supported. */
  predicate SupportedText(command: string) {
    var r := ParseElements(command, 0);
    r.Elements? ==> AllSupported(r.es)
  }

  /** The tree a declaration adds, when it parses and the handler has its type. */
  function CommandOf(command: string, desc: string, h: Handler): Result<Node> {
    var r := ParseElements(command, 0);
    if r.Elements? && h.params == FinalTypes(r.es, [TWriter]) && h.returnsError
    then Ok(Command(r.es, [TWriter], h, desc))
    else Err
  }

  function AtRoot(root: Option<Node>, p: seq<string>): Option<Attrs> {
    match root case None => None case Some(n) => AtPath(n, p)
  }

  predicate Completable(o: string) {
    forall i :: 0 <= i < |o| ==> !IsSpace(o[i])
  }

  /** The outcome of entering a line. */
  datatype Outcome = Nothing | Unknown | Incompletely | Ambiguous | Run(invoker: Invoker) | ErrorRunning

  class CLI {
    var root: Option<Node>
    var lastKey: char

    ghost predicate Valid()
      reads this
    {
      root.Some? ==> WellFormed(root.value) && Typed(root.value, [TWriter])
    }

    constructor ()
      ensures Valid() && root == None
    {
      root := None;
      lastKey := '\0';
    }

    /** Succeeds exactly when the declaration parses, the handler takes the types of its
        parameters, and its choices agree with those of the commands already there; then the
        new command is merged into the tree, which holds it beside, or over, what it held. */
    method Register(command: string, desc: string, h: Handler) returns (ok: bool)
      requires Valid() && SupportedText(command)
      modifies this`root
      ensures ok <==>
        && CommandOf(command, desc, h).Ok?
        && (old(root).Some? ==> Compatible(old(root).value, CommandOf(command, desc, h).value))
      ensures ok ==> Valid() && root.Some? && MergeAll(old(root), [CommandOf(command, desc, h).value]) == Ok(root)
      ensures ok ==> forall p ::
        (AtRoot(root, p) == OverrideAt(AtRoot(old(root), p), AtPath(CommandOf(command, desc, h).value, p)))
    {
      var r := ParseDeclaration(command);
      if r.Err? {
        return false;
      }
      ghost var es := ParseElements(command, 0).es;
      LeafTypes(es, [TWriter]);
      var leaves := Leaves(r.value);
      for i := 0 to |leaves|
        invariant i > 0 ==> FitsLeaf(h, leaves[0])
      {
        assert leaves[i] in leaves && leaves[0] in leaves;
        if !FitsLeaf(h, leaves[i]) {
          return false;
        }
      }
      var n := SetLeaves(r.value, h, desc);
      assert leaves[0] in leaves;
      assert CommandOf(command, desc, h) == Ok(n);
      CommandWellFormed(es, [TWriter], h, desc);
      CommandTyped(es, [TWriter], h, desc);
      assert [n][1..] == [];
      if root.None? {
        root := Some(n);
        return true;
      }
      ghost var u := root.value;
      MergeSucceedsIff(u, n);
      var merged := MergeWithPath(root.value, n);
      if merged.Err? {
        return false;
      }
      MergeKeepsWellFormed(u, n);
      MergeKeepsTyped(u, n, [TWriter]);
      forall p ensures AtPath(merged.value, p) == OverrideAt(AtPath(u, p), AtPath(n, p)) {
        MergeIsUnion(u, n, p);
      }
      root := Some(merged.value);
      ok := true;
    }

    /** autocompleteWithTab: if it changes the line, it only inserts text at the cursor. The
        text completes the single option, with a space unless one follows, or extends the last
        field to the longest common prefix of several options; these then stay the options,
        as long as none of them contains a space. A second TAB lists them instead. */
    method AutocompleteWithTab(line: string, pos: nat, v6: V6Parser)
      returns (newLine: string, newPos: nat, ok: bool)
      requires Valid() && root.Some? && pos <= |line|
      ensures ok ==> pos <= newPos <= |newLine| && newLine[..pos] == line[..pos] && newLine[newPos..] == line[pos..]
      ensures ok ==> TabInserts(root.value, line[..pos], line[pos..], newLine[pos..newPos], v6)
      ensures var os := LineOptions(root.value, line[..pos], v6);
        && (!ok <==> os.Err? || os.value == [] || (|os.value| > 1 && lastKey == '\t'))
        && (ok && |os.value| > 1 && (forall o :: o in os.value ==> Completable(o)) ==>
              LineOptions(root.value, newLine[..newPos], v6) == os)
    {
      hide OptionsOf, AutocompleteFields, WellFormed, Typed, LongestCommonPrefix, Completable;
      var prefix, rest := line[..pos], line[pos..];
      var fields := AutocompleteFields(prefix);
      var r := GetAutocompleteOptionsFromTokens(root.value, fields, v6);
      if r.Err? {
        return "", 0, false;
      }
      var options, offset := r.value, |fields[|fields| - 1]|;
      OptionsStartWithLast(root.value, prefix, v6);
      if |options| == 0 {
        return "", 0, false;
      } else if |options| == 1 {
        assert HasPrefix(options[0], LastField(prefix));
        var new_ := prefix + options[0][offset..];
        ghost var ins := options[0][offset..];
        if !HasPrefix(rest, " ") {
          new_ := new_ + " ";
          ins := ins + " ";
        }
        Inserted(prefix, ins, rest, new_);
        return new_ + rest, |new_|, true;
      } else if lastKey != '\t' {
        var prefixLen := CommonPrefixLen(options);
        ExtendsLast(root.value, prefix, options, prefixLen, v6);
        var new_ := prefix + options[0][offset..prefixLen];
        Inserted(prefix, options[0][offset..prefixLen], rest, new_);
        return new_ + rest, |new_|, true;
      } else {
        return "", 0, false;
      }
    }

    /** runLine, up to calling the handler: a handler is called exactly when one match is
        left and it is complete. */
    method RunLine(line: string, v6: V6Parser) returns (r: Outcome)
      requires Valid() && root.Some?
      ensures r.Nothing? <==> Fields(line) == []
      ensures Fields(line) != [] ==> var ms := Chosen(root.value, Fields(line), v6);
        && (r.Unknown? <==> ms == [])
        && (r.Incompletely? <==> ms != [] && forall m :: m in ms ==> !m.isComplete)
        && (r.Ambiguous? <==> |ms| > 1 && exists m :: m in ms && m.isComplete)
        && (r.Run? <==> |ms| == 1 && ms[0].isComplete)
        && (r.Run? ==> r.invoker.args == ChainArgs(ms[0]) && Last(ms[0]).node.handler == Some(r.invoker.handler))
    {
      hide WellFormed, Typed, MatchNodes, Disambiguated, Last, ChainArgs;
      var tokens := Fields(line);
      if tokens == [] {
        return Nothing;
      }
      var matches := MatchFields(root.value, tokens, v6);
      var complete := 0;
      for i := 0 to |matches|
        invariant complete > 0 <==> exists j :: 0 <= j < i && matches[j].isComplete
        invariant 0 <= complete <= i
      {
        if matches[i].isComplete {
          complete := complete + 1;
        }
      }
      if complete == 0 && |matches| == 0 {
        return Unknown;
      }
      if complete == 0 {
        return Incompletely;
      }
      if complete > 1 || |matches| > 1 {
        return Ambiguous;
      }
      ChosenAreMatches(root.value, tokens, v6, matches[0]);
      var invoker := MakeInvoker(matches[0]);
      if !invoker.Ready? {
        return ErrorRunning;
      }
      r := Run(invoker.invoker);
    }
  }

  // ---------------------------------------------------------------- completing with TAB

  /** k is the length of the longest common prefix of ss. */
  ghost predicate LongestCommonPrefix(ss: seq<string>, k: nat)
    requires ss != []
  {
    && CommonPrefix(ss, k)
    && (k == |ss[0]| || !CommonPrefix(ss, k + 1))
  }

  ghost predicate CommonPrefix(ss: seq<string>, k: nat)
    requires ss != []
  {
    k <= |ss[0]| && forall i :: 0 <= i < |ss| ==> HasPrefix(ss[i], ss[0][..k])
  }

  /** The prefixes that ss have in common are those of up to this length. */
  lemma LongestIs(ss: seq<string>, k: nat, l: nat)
    requires ss != [] && LongestCommonPrefix(ss, k)
    ensures l <= k <==> forall i :: 0 <= i < |ss| ==> l <= |ss[i]| && |ss[0]| >= l && ss[i][..l] == ss[0][..l]
  {
    CommonIff(ss, l);
    if l <= k {
      CommonShorter(ss, k, l);
    } else {
      CommonShorter(ss, l, k + 1);
    }
  }

  lemma CommonIff(ss: seq<string>, l: nat)
    requires ss != []
    ensures CommonPrefix(ss, l) <==>
      forall i :: 0 <= i < |ss| ==> l <= |ss[i]| && |ss[0]| >= l && ss[i][..l] == ss[0][..l]
  {
    assert l <= |ss[0]| ==> ss[0][..l] == ss[0][..l];
  }

  lemma CommonShorter(ss: seq<string>, l: nat, m: nat)
    requires ss != [] && m <= l
    ensures CommonPrefix(ss, l) ==> CommonPrefix(ss, m)
  {
    if CommonPrefix(ss, l) {
      assert ss[0][..l][..m] == ss[0][..m];
    }
  }

  method CommonPrefixLen(ss: seq<string>) returns (prefixLen: nat)
    ensures ss == [] ==> prefixLen == 0
    ensures ss != [] ==> LongestCommonPrefix(ss, prefixLen)
  {
    if |ss| == 0 {
      return 0;
    }
    prefixLen := |ss[0]|;
    for j := 1 to |ss|
      invariant LongestCommonPrefix(ss[..j], prefixLen)
    {
      var s := ss[j];
      var i := 0;
      while i < |s| && i < prefixLen && s[i] == ss[0][i]
        invariant i <= |s| && i <= prefixLen && s[..i] == ss[0][..i]
      {
        i := i + 1;
      }
      OneMore(ss, j, prefixLen, i);
      prefixLen := i;
    }
    assert ss[..|ss|] == ss;
  }

  lemma OneMore(ss: seq<string>, j: nat, k: nat, i: nat)
    requires 1 <= j < |ss| && LongestCommonPrefix(ss[..j], k)
    requires i <= |ss[j]| && i <= k && ss[j][..i] == ss[0][..i]
    requires i == |ss[j]| || i == k || ss[j][i] != ss[0][i]
    ensures LongestCommonPrefix(ss[..j + 1], i)
  {
    var a, b := ss[..j], ss[..j + 1];
    assert b[0] == ss[0] && a[0] == ss[0];
    forall l | 0 <= l < |b| ensures HasPrefix(b[l], ss[0][..i]) {
      if l < j {
        assert a[l] == b[l] && HasPrefix(a[l], ss[0][..k]);
        assert ss[0][..k][..i] == ss[0][..i];
      }
    }
    if i < |ss[0]| && CommonPrefix(b, i + 1) {
      assert HasPrefix(b[j], ss[0][..i + 1]);
      assert ss[0][..i + 1][i] == ss[0][i];
      assert i == k;
      forall l | 0 <= l < |a| ensures HasPrefix(a[l], ss[0][..k + 1]) {
        assert b[l] == a[l];
      }
      assert false;
    }
  }

  /** The options of a line, as GetAutocompleteOptions finds them, but not sorted. */
  function LineOptions(n: Node, line: string, v6: V6Parser): Result<seq<string>> {
    OptionsOf(n, AutocompleteFields(line), v6)
  }

  function LastField(line: string): string {
    var fs := AutocompleteFields(line);
    fs[|fs| - 1]
  }

  lemma OptionsStartWithLast(n: Node, line: string, v6: V6Parser)
    requires LineOptions(n, line, v6).Ok?
    ensures forall o :: o in LineOptions(n, line, v6).value ==> HasPrefix(o, LastField(line))
  {
    OptionsHavePrefix(n, |Alts(n)|, AutocompleteFields(line), v6);
  }

  /** Typing what is common to all options leaves the options as they are. */
  lemma TypingCommonPrefix(n: Node, line: string, ext: string, v6: V6Parser)
    requires LineOptions(n, line, v6).Ok? && SpaceFree(ext)
    requires forall o :: o in LineOptions(n, line, v6).value ==> HasPrefix(o, LastField(line) + ext)
    ensures LineOptions(n, line + ext, v6) == LineOptions(n, line, v6)
  {
    var fs := AutocompleteFields(line);
    TypingGrowsLast(line, ext);
    GrowingNarrows(n, |Alts(n)|, fs, LastField(line) + ext, v6);
    assert ReplaceLast(fs, LastField(line) + ext) == GrowLast(fs, ext);
    WithPrefixAll(LineOptions(n, line, v6).value, LastField(line) + ext);
  }

  /** What all options start with is part of their longest common prefix. */
  lemma LastIsCommon(os: seq<string>, last: string, k: nat)
    requires os != [] && LongestCommonPrefix(os, k) && forall o :: o in os ==> HasPrefix(o, last)
    ensures |last| <= k && os[0][..|last|] == last
  {
    assert os[0] in os;
    if k < |last| {
      forall i | 0 <= i < |os| ensures HasPrefix(os[i], os[0][..k + 1]) {
        assert os[i] in os;
        assert os[0][..k + 1] == last[..k + 1];
      }
      assert false;
    }
  }

  lemma Inserted(prefix: string, ins: string, rest: string, text: string)
    requires text == prefix + ins
    ensures var line, k := text + rest, |prefix|;
      line[..k] == prefix && line[k..|text|] == ins && line[..|text|] == text && line[|text|..] == rest
  {
  }

  /** Extending the last field to the longest common prefix of the options. */
  lemma ExtendsLast(n: Node, prefix: string, options: seq<string>, k: nat, v6: V6Parser)
    requires LineOptions(n, prefix, v6) == Ok(options) && options != [] && LongestCommonPrefix(options, k)
    ensures var last := |LastField(prefix)|; last <= k <= |options[0]|
    ensures var ins := options[0][|LastField(prefix)|..k];
      && LastField(prefix) + ins == options[0][..k]
      && ((forall o :: o in options ==> Completable(o)) ==>
            LineOptions(n, prefix + ins, v6) == LineOptions(n, prefix, v6))
  {
    hide LineOptions, LastField;
    OptionsStartWithLast(n, prefix, v6);
    LastIsCommon(options, LastField(prefix), k);
    var ins := options[0][|LastField(prefix)|..k];
    assert LastField(prefix) + ins == options[0][..k];
    if forall o :: o in options ==> Completable(o) {
      assert options[0] in options;
      assert SpaceFree(ins);
      forall o | o in options ensures HasPrefix(o, LastField(prefix) + ins) {
        var i :| 0 <= i < |options| && options[i] == o;
      }
      TypingCommonPrefix(n, prefix, ins, v6);
    }
  }

  /** What a TAB does to the text before the cursor. */
  ghost predicate TabInserts(n: Node, prefix: string, rest: string, ins: string, v6: V6Parser) {
    var r := LineOptions(n, prefix, v6);
    && r.Ok? && r.value != []
    && var os, last := r.value, LastField(prefix);
       if |os| == 1 then
         last + ins == os[0] + (if HasPrefix(rest, " ") then "" else " ")
       else
         exists k: nat :: LongestCommonPrefix(os, k) && last + ins == os[0][..k]
  }

  /** What Match returns for the fields of a line. */
  function Chosen(n: Node, tokens: seq<string>, v6: V6Parser): seq<Match>
    requires tokens != []
  {
    var matches := MatchNodes(n, tokens, v6);
    if |matches| <= 1 then matches else Disambiguated(matches, tokens)
  }

  /** Match returns a single match as it is, and otherwise what is left after choosing by exact
      literals. */
  lemma ChosenIs(n: Node, tokens: seq<string>, v6: V6Parser)
    requires tokens != []
    ensures |MatchNodes(n, tokens, v6)| <= 1 ==> Chosen(n, tokens, v6) == MatchNodes(n, tokens, v6)
    ensures |MatchNodes(n, tokens, v6)| > 1 ==>
      exists t, r :: Decides(MatchNodes(n, tokens, v6), tokens, t, r) &&
        Chosen(n, tokens, v6) == Pick(MatchNodes(n, tokens, v6), r.kept)
  {
    hide MatchNodes, Decides, Disambiguated;
    var t, r := DisambiguatedIs(MatchNodes(n, tokens, v6), tokens);
    KeptInside(MatchNodes(n, tokens, v6), tokens, t, r);
  }

  lemma KeptInside(matches: seq<Match>, tokens: seq<string>, t: nat, r: Round)
    requires Decides(matches, tokens, t, r)
    ensures CommandDisambiguation.Below(r.kept, |matches|)
  {
  }

  lemma ChosenAreMatches(n: Node, tokens: seq<string>, v6: V6Parser, m: Match)
    requires WellFormed(n) && tokens != [] && m in Chosen(n, tokens, v6)
    ensures m in MatchNodes(n, tokens, v6)
    ensures m.isComplete ==> Last(m).node.handler.Some?
  {
    var matches := MatchNodes(n, tokens, v6);
    if |matches| > 1 {
      var ps := DisambiguatedIsSublist(matches, tokens);
    }
    MatchAltsGood(n, |Alts(n)|, tokens, v6);
  }
}
