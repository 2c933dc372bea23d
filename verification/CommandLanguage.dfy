// The declaration language as a grammar, in terms of the characters of the text alone, and
// the proof that the parser accepts exactly this language.

module CommandLanguage {
  import opened Prelude
  import opened CommandTree
  import opened CommandGrammar

  // ---------------------------------------------------------------- the grammar

  /** The text ends at pos, or has a character there that may follow an element. */
  predicate Ends(s: string, pos: nat) {
    pos >= |s| || s[pos] == '\n' || s[pos] == ' ' || s[pos] == '|' || s[pos] == '>'
  }

  ghost predicate AllBlank(s: string, p: nat, q: nat) {
    p <= q <= |s| && forall i :: p <= i < q ==> s[i] == ' '
  }

  /** The word w stands for the literal or parameter n. */
  ghost predicate Word(w: string, n: Node) {
    && n.t != Choice
    && n == Node(n.t, n.value, "", None, None, [], [], false)
    && match n.t
       case Literal => n.value == w && LiteralWord(w)
       case ParamString => n.value == w && Capitals(w)
       case ParamIPv4 => n.value == "" && w == "A.B.C.D"
       case _ => n.value == "" && w == "X:X:X::X"
  }

  /** The text from pos to e is the element n. */
  ghost predicate Reads(s: string, pos: nat, n: Node, e: nat)
    decreases n, 0
  {
    && pos < e <= |s| && Ends(s, e)
    && if n.t == Choice then
         && n == Node(Choice, "", "", None, None, n.children, [], true)
         && n.children != [] && s[pos] == '<'
         && exists r :: Option(s, pos + 1, n.children[0], r) && Options(s, r, n.children[1..], e)
       else Word(s[pos..e], n)
  }

  /** The text from p to r is the element n, with any blanks before it. */
  ghost predicate Option(s: string, p: nat, n: Node, r: nat)
    decreases n, 1
  {
    exists q :: AllBlank(s, p, q) && Reads(s, q, n, r)
  }

  /** The text from r to e is the rest of a choice: its further options ns, each after a bar,
      and the closing bracket, with any blanks before each of them. */
  ghost predicate Options(s: string, r: nat, ns: seq<Node>, e: nat)
    decreases ns, 2
  {
    exists t: nat :: AllBlank(s, r, t) && t < |s| &&
      if ns == [] then s[t] == '>' && e == t + 1
      else s[t] == '|' && exists q :: Option(s, t + 1, ns[0], q) && Options(s, q, ns[1..], e)
  }

  /** The text from pos to the end of the line is the elements es, with any blanks before,
      between and after them. */
  ghost predicate Sentence(s: string, pos: nat, es: seq<Node>)
    decreases es
  {
    es != [] && exists r :: Option(s, pos, es[0], r) && (if |es| == 1 then LineEnds(s, r) else Sentence(s, r, es[1..]))
  }

  ghost predicate LineEnds(s: string, r: nat) {
    exists t: nat :: AllBlank(s, r, t) && (t == |s| || s[t] == '\n')
  }

  // ---------------------------------------------------------------- literals and parameters

  lemma EndsIff(s: string, pos: nat)
    ensures IsElementEnd(s, pos) <==> Ends(s, pos)
  {
  }

  lemma {:induction false} InRun(s: string, pos: nat, class_: Class)
    requires pos <= |s|
    ensures forall i :: pos <= i < RunEnd(s, pos, class_) ==> InClass(s[i], class_)
    decreases |s| - pos
  {
    if pos < |s| && InClass(s[pos], class_) {
      InRun(s, pos + 1, class_);
    }
  }

  /** Each word that stands for a literal or parameter is read as such where an element may
      end after it. */
  lemma WordIsParsed(s: string, pos: nat, n: Node, e: nat)
    requires pos < e <= |s| && Ends(s, e) && Word(s[pos..e], n)
    ensures ParseElement(s, pos) == Parsed(n, e)
  {
    hide ParseElement, LiteralWord, Capitals;
    assert PlainAtom(n) && Text(n) == s[pos..e];
    EndsIff(s, e);
    assert At(s, pos, Text(n));
    ReadAtom(s, pos, n);
  }

  /** And nothing else is read as a literal or parameter. */
  lemma ParsedIsWord(s: string, pos: nat, n: Node, e: nat)
    requires pos <= |s| && ParseElement(s, pos) == Parsed(n, e) && n.t != Choice
    ensures pos < e <= |s| && Ends(s, e) && Word(s[pos..e], n)
  {
    hide ParseChoice, LiteralWord, Capitals;
    EndsIff(s, e);
    ChoiceIsParsed(s, pos);
    AtStarts(s, pos, "A.B.C.D");
    AtStarts(s, pos, "X:X:X::X");
    if n.t.ParamIPv4? {
      assert s[pos..e] == "A.B.C.D";
    } else if n.t.ParamIPv6? {
      assert s[pos..e] == "X:X:X::X";
    } else if n.t.ParamString? {
      CapitalsRun(s, pos);
    } else {
      LiteralRun(s, pos);
    }
  }

  lemma ChoiceIsParsed(s: string, pos: nat)
    ensures pos < |s| && ParseChoice(s, pos).Parsed? ==> ParseChoice(s, pos).n.t == Choice
  {
    hide ParseElement, ParseOptions;
    if pos < |s| && ParseChoice(s, pos).Parsed? {
      var first := ParseElement(s, RunEnd(s, pos + 1, Blank));
      OptionsAreChoice(s, first.pos, [first.n], pos);
    }
  }

  lemma {:induction false} OptionsAreChoice(s: string, pos: nat, kids: seq<Node>, start: nat)
    requires start < pos <= |s| && ParseOptions(s, pos, kids, start).Parsed?
    ensures ParseOptions(s, pos, kids, start).n.t == Choice
    decreases |s| - pos
  {
    hide ParseElement;
    var p := RunEnd(s, pos, Blank);
    if StartsWith(s, p, "|") {
      var next := ParseElement(s, RunEnd(s, p + 1, Blank));
      OptionsAreChoice(s, next.pos, kids + [next.n], start);
    }
  }

  lemma CapitalsRun(s: string, pos: nat)
    requires pos < |s| && IsUpper(s[pos])
    ensures pos < RunEnd(s, pos, Upper) && Capitals(s[pos..RunEnd(s, pos, Upper)])
  {
    InRun(s, pos, Upper);
  }

  /** Capitals that end where an element may end are all of their run. */
  lemma OtherThanCapital(s: string, pos: nat, e: nat) returns (k: nat)
    requires pos < e <= |s| && IsElementEnd(s, e) && (IsUpper(s[pos]) ==> !IsElementEnd(s, RunEnd(s, pos, Upper)))
    ensures pos <= k < e && !IsUpper(s[k])
  {
    k := RunEnd(s, pos, Upper);
    if k < e {
      RunBreaks(s, pos, Upper);
    } else {
      InRun(s, pos, Upper);
      RunIs(s, pos, Upper, e - pos);
      k := pos;
    }
  }

  lemma {:induction false} RunBreaks(s: string, pos: nat, class_: Class)
    requires pos <= |s|
    ensures RunEnd(s, pos, class_) < |s| ==> !InClass(s[RunEnd(s, pos, class_)], class_)
    decreases |s| - pos
  {
    if pos < |s| && InClass(s[pos], class_) {
      RunBreaks(s, pos + 1, class_);
    }
  }

  lemma LiteralRun(s: string, pos: nat)
    requires pos < |s| && IsLitStart(s[pos])
    requires IsElementEnd(s, RunEnd(s, pos, LitRest))
    requires IsUpper(s[pos]) ==> !IsElementEnd(s, RunEnd(s, pos, Upper))
    ensures pos < RunEnd(s, pos, LitRest) && LiteralWord(s[pos..RunEnd(s, pos, LitRest)])
  {
    var e := RunEnd(s, pos, LitRest);
    InRun(s, pos, LitRest);
    var k := OtherThanCapital(s, pos, e);
    assert s[pos..e][k - pos] == s[k];
  }

  // ---------------------------------------------------------------- choices

  /** Blanks before a character that is none are the run of blanks. */
  lemma BlankRun(s: string, p: nat, q: nat)
    requires AllBlank(s, p, q) && (q == |s| || s[q] != ' ')
    ensures RunEnd(s, p, Blank) == q
  {
    RunIs(s, p, Blank, q - p);
  }

  lemma SkippedBlank(s: string, p: nat)
    requires p <= |s|
    ensures AllBlank(s, p, RunEnd(s, p, Blank))
    ensures RunEnd(s, p, Blank) < |s| ==> s[RunEnd(s, p, Blank)] != ' '
  {
    InRun(s, p, Blank);
    RunBreaks(s, p, Blank);
  }

  lemma NotBlank(s: string, pos: nat, n: Node, e: nat)
    requires Reads(s, pos, n, e)
    ensures s[pos] != ' ' && s[pos] != '\n'
  {
    if n.t != Choice {
      assert s[pos..e][0] == s[pos];
      assert "A.B.C.D"[0] == 'A' && "X:X:X::X"[0] == 'X';
    }
  }

  lemma OneCharAt(s: string, pos: nat, c: char)
    ensures StartsWith(s, pos, [c]) <==> pos < |s| && s[pos] == c
  {
    AtStarts(s, pos, [c]);
    assert pos < |s| && s[pos] == c ==> At(s, pos, [c]);
    assert At(s, pos, [c]) ==> s[pos + 0] == c;
  }

  /** Every text of the language is parsed as the element it is. */
  lemma {:induction false} ReadsIsParsed(s: string, pos: nat, n: Node, e: nat)
    requires Reads(s, pos, n, e)
    ensures ParseElement(s, pos) == Parsed(n, e)
    decreases n, 0
  {
    hide Option, Options, Word, ParseElement, ParseOptions;
    if n.t == Choice {
      var r :| Option(s, pos + 1, n.children[0], r) && Options(s, r, n.children[1..], e);
      OptionIsParsed(s, pos + 1, n.children[0], r);
      OptionsAreParsed(s, r, [n.children[0]], n.children[1..], e, pos);
      assert [n.children[0]] + n.children[1..] == n.children;
      OneCharAt(s, pos, '<');
      BracketIsChoice(s, pos);
    } else {
      WordIsParsed(s, pos, n, e);
    }
  }

  lemma BracketIsChoice(s: string, pos: nat)
    requires pos < |s| && StartsWith(s, pos, "<")
    ensures ParseElement(s, pos) == ParseChoice(s, pos)
  {
  }

  lemma {:induction false} OptionIsParsed(s: string, p: nat, n: Node, r: nat)
    requires Option(s, p, n, r)
    ensures p < r <= |s| && ParseElement(s, RunEnd(s, p, Blank)) == Parsed(n, r)
    decreases n, 1
  {
    hide Reads, ParseElement;
    var q :| AllBlank(s, p, q) && Reads(s, q, n, r);
    ReadsBounds(s, q, n, r);
    NotBlank(s, q, n, r);
    BlankRun(s, p, q);
    ReadsIsParsed(s, q, n, r);
  }

  lemma ReadsBounds(s: string, pos: nat, n: Node, e: nat)
    requires Reads(s, pos, n, e)
    ensures pos < e <= |s|
  {
  }

  /** ParseOptions, in terms of the next character that is not blank. */
  lemma OptionsUnfold(s: string, r: nat, kids: seq<Node>, start: nat)
    requires start < r <= |s|
    ensures var t := RunEnd(s, r, Blank);
      ParseOptions(s, r, kids, start) ==
        if t < |s| && s[t] == '|' then
          var next := ParseElement(s, RunEnd(s, t + 1, Blank));
          if next.Failed? then next else ParseOptions(s, next.pos, kids + [next.n], start)
        else if t < |s| && s[t] == '>' && Ends(s, t + 1) then Parsed(ChoiceOf(kids), t + 1)
        else Failed(start)
  {
    hide StartsWith, ParseElement, RunEnd;
    var t := RunEnd(s, r, Blank);
    OneCharAt(s, t, '|');
    OneCharAt(s, t, '>');
    EndsIff(s, t + 1);
  }

  lemma {:induction false} OptionsAreParsed(s: string, r: nat, kids: seq<Node>, ns: seq<Node>, e: nat, start: nat)
    requires start < r && Options(s, r, ns, e) && Ends(s, e)
    ensures r <= |s| && ParseOptions(s, r, kids, start) == Parsed(ChoiceOf(kids + ns), e)
    decreases ns, 2
  {
    hide Options, Option, ParseElement, ParseOptions, Ends, RunEnd;
    var t, q := NextOption(s, r, ns, e);
    BlankRun(s, r, t);
    OptionsUnfold(s, r, kids, start);
    if ns == [] {
      assert kids + ns == kids;
    } else {
      OptionIsParsed(s, t + 1, ns[0], q);
      OptionsAreParsed(s, q, kids + [ns[0]], ns[1..], e, start);
      assert kids + [ns[0]] + ns[1..] == kids + ns;
    }
  }

  lemma NextOption(s: string, r: nat, ns: seq<Node>, e: nat) returns (t: nat, q: nat)
    requires Options(s, r, ns, e)
    ensures IsNext(s, r, ns, e, t, q)
  {
    hide Option;
    t :| AllBlank(s, r, t) && t < |s| &&
      if ns == [] then s[t] == '>' && e == t + 1
      else s[t] == '|' && exists q :: Option(s, t + 1, ns[0], q) && Options(s, q, ns[1..], e);
    if ns == [] {
      q := t;
    } else {
      q :| Option(s, t + 1, ns[0], q) && Options(s, q, ns[1..], e);
    }
  }

  /** The first of the options ns, if there is one, or the closing bracket. */
  ghost predicate IsNext(s: string, r: nat, ns: seq<Node>, e: nat, t: nat, q: nat) {
    && AllBlank(s, r, t) && t < |s|
    && if ns == [] then s[t] == '>' && e == t + 1
       else s[t] == '|' && Option(s, t + 1, ns[0], q) && Options(s, q, ns[1..], e)
  }

  lemma OptionsFromNext(s: string, r: nat, ns: seq<Node>, e: nat, t: nat, q: nat)
    requires IsNext(s, r, ns, e, t, q)
    ensures Options(s, r, ns, e)
  {
    hide Option;
  }

  /** Every element that is parsed is of the language. */
  lemma {:induction false} ParsedIsRead(s: string, pos: nat, n: Node, e: nat)
    requires pos <= |s| && ParseElement(s, pos) == Parsed(n, e)
    ensures Reads(s, pos, n, e)
    decreases |s| - pos, 0
  {
    hide Option, Options, Word, ParseOptions;
    if n.t == Choice {
      OneCharAt(s, pos, '<');
      var p := RunEnd(s, pos + 1, Blank);
      var first := ParseElement(s, p);
      hide ParseElement;
      ParsedIsOption(s, pos + 1, first.n, first.pos);
      var ns := ParsedAreOptions(s, first.pos, [first.n], pos, n, e);
      assert n.children[0] == first.n && n.children[1..] == ns;
    } else {
      ParsedIsWord(s, pos, n, e);
    }
  }

  lemma {:induction false} ParsedIsOption(s: string, p: nat, n: Node, r: nat)
    requires p <= |s| && ParseElement(s, RunEnd(s, p, Blank)) == Parsed(n, r)
    ensures Option(s, p, n, r)
    decreases |s| - p, 1
  {
    hide ParseElement, Reads;
    SkippedBlank(s, p);
    ParsedIsRead(s, RunEnd(s, p, Blank), n, r);
  }

  lemma {:induction false} ParsedAreOptions(s: string, r: nat, kids: seq<Node>, start: nat, n: Node, e: nat)
    returns (ns: seq<Node>)
    requires start < r <= |s| && ParseOptions(s, r, kids, start) == Parsed(n, e)
    ensures n == ChoiceOf(kids + ns) && Options(s, r, ns, e) && Ends(s, e)
    decreases |s| - r, 1
  {
    hide ParseElement, ParseOptions, Option, Options, Ends, RunEnd;
    var t := RunEnd(s, r, Blank);
    SkippedBlank(s, r);
    OptionsUnfold(s, r, kids, start);
    if s[t] == '|' {
      var next := ParseElement(s, RunEnd(s, t + 1, Blank));
      ParsedIsOption(s, t + 1, next.n, next.pos);
      var rest := ParsedAreOptions(s, next.pos, kids + [next.n], start, n, e);
      ns := [next.n] + rest;
      assert kids + [next.n] + rest == kids + ns && ns[1..] == rest;
      OptionsFromNext(s, r, ns, e, t, next.pos);
    } else {
      ns := [];
      assert kids + ns == kids;
      OptionsFromNext(s, r, ns, e, t, t);
    }
  }

  /** The parser reads an element exactly where the text is one, and then that one. */
  lemma ElementIff(s: string, pos: nat, n: Node, e: nat)
    requires pos <= |s|
    ensures ParseElement(s, pos) == Parsed(n, e) <==> Reads(s, pos, n, e)
  {
    if Reads(s, pos, n, e) {
      ReadsIsParsed(s, pos, n, e);
    }
    if ParseElement(s, pos) == Parsed(n, e) {
      ParsedIsRead(s, pos, n, e);
    }
  }

  // ---------------------------------------------------------------- whole declarations

  lemma LineEndsIff(s: string, r: nat)
    requires r <= |s|
    ensures LineEnds(s, r) <==> IsEOL(s, RunEnd(s, r, Blank))
  {
    SkippedBlank(s, r);
    if LineEnds(s, r) {
      var t: nat :| AllBlank(s, r, t) && (t == |s| || s[t] == '\n');
      BlankRun(s, r, t);
    }
  }

  lemma OptionIff(s: string, p: nat, n: Node, r: nat)
    requires p <= |s|
    ensures Option(s, p, n, r) <==> ParseElement(s, RunEnd(s, p, Blank)) == Parsed(n, r)
    ensures Option(s, p, n, r) ==> p < r <= |s| && !IsEOL(s, RunEnd(s, p, Blank))
  {
    hide Reads, ParseElement;
    if Option(s, p, n, r) {
      OptionIsParsed(s, p, n, r);
      var q :| AllBlank(s, p, q) && Reads(s, q, n, r);
      ReadsBounds(s, q, n, r);
      NotBlank(s, q, n, r);
      BlankRun(s, p, q);
    }
    if ParseElement(s, RunEnd(s, p, Blank)) == Parsed(n, r) {
      ParsedIsOption(s, p, n, r);
    }
  }

  lemma ParseUnfold(s: string, pos: nat)
    requires pos <= |s|
    ensures var first := ParseElement(s, RunEnd(s, pos, Blank));
      ParseElements(s, pos) ==
        if first.Failed? then Broken(first.pos)
        else if IsEOL(s, RunEnd(s, first.pos, Blank)) then Elements([first.n])
        else match ParseElements(s, first.pos) case Broken(p) => Broken(p) case Elements(es) => Elements([first.n] + es)
  {
    hide ParseElement, RunEnd;
    var first := ParseElement(s, RunEnd(s, pos, Blank));
    if first.Parsed? {
      SkipOnce(s, first.pos);
    }
  }

  lemma SentenceUnfold(s: string, pos: nat, es: seq<Node>)
    requires pos <= |s|
    ensures var first := ParseElement(s, RunEnd(s, pos, Blank));
      Sentence(s, pos, es) <==>
        && es != [] && first == Parsed(es[0], first.pos)
        && if |es| == 1 then LineEnds(s, first.pos) else Sentence(s, first.pos, es[1..])
  {
    hide ParseElement, RunEnd, Option, LineEnds;
    if es != [] {
      forall r: nat
        ensures Option(s, pos, es[0], r) <==> ParseElement(s, RunEnd(s, pos, Blank)) == Parsed(es[0], r)
      {
        OptionIff(s, pos, es[0], r);
      }
    }
  }

  lemma NotAtEnd(s: string, p: nat, es: seq<Node>)
    requires p <= |s|
    ensures Sentence(s, p, es) ==> !IsEOL(s, RunEnd(s, p, Blank))
  {
    hide Option, RunEnd, ParseElement, LineEnds;
    if Sentence(s, p, es) {
      var r :| Option(s, p, es[0], r);
      OptionIff(s, p, es[0], r);
    }
  }

  /** A declaration has the elements es exactly when its first line spells them out. */
  lemma {:induction false} DeclarationIff(s: string, pos: nat, es: seq<Node>)
    requires pos <= |s|
    ensures ParseElements(s, pos) == Elements(es) <==> Sentence(s, pos, es)
    decreases |s| - pos
  {
    hide ParseElement, Option, LineEnds, RunEnd, Sentence, ParseElements;
    ParseUnfold(s, pos);
    var first := ParseElement(s, RunEnd(s, pos, Blank));
    SentenceUnfold(s, pos, es);
    if first.Parsed? && es != [] && es[0] == first.n {
      var r := first.pos;
      LineEndsIff(s, r);
      NotAtEnd(s, r, es[1..]);
      DeclarationIff(s, r, es[1..]);
      assert [es[0]] + es[1..] == es;
      assert |es| == 1 ==> es[1..] == [];
    }
  }

  lemma SkipOnce(s: string, r: nat)
    requires r <= |s|
    ensures ParseElements(s, RunEnd(s, r, Blank)) == ParseElements(s, r)
  {
    SkippedBlank(s, r);
    BlankRun(s, RunEnd(s, r, Blank), RunEnd(s, r, Blank));
  }
}
