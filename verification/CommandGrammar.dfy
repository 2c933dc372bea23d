// The declaration language: what the parser accepts, as functions of text and position, and
// the proof that printing and parsing undo each other.

module CommandGrammar {
  import opened Prelude
  import opened CommandTree

  // ---------------------------------------------------------------- characters

  /** What peek returns at the end of the text, where there is no character. */
  const RUNE_ERROR: char := '\U{FFFD}'

  function Peek(s: string, pos: nat): char {
    if pos < |s| then s[pos] else RUNE_ERROR
  }

  predicate IsUpper(c: char) { 'A' <= c <= 'Z' }

  predicate IsLitStart(c: char) { 'a' <= c <= 'z' || IsUpper(c) }

  predicate IsLitRest(c: char) { IsLitStart(c) || '0' <= c <= '9' || c == '_' || c == '-' }

  predicate IsEOL(s: string, pos: nat) { pos >= |s| || Peek(s, pos) == '\n' }

  predicate IsElementEnd(s: string, pos: nat) {
    IsEOL(s, pos) || Peek(s, pos) == ' ' || Peek(s, pos) == '|' || Peek(s, pos) == '>'
  }

  predicate StartsWith(s: string, pos: nat, w: string) {
    pos <= |s| && HasPrefix(s[pos..], w)
  }

  datatype Class = Blank | Upper | LitRest

  predicate InClass(c: char, class_: Class) {
    match class_
    case Blank => c == ' '
    case Upper => IsUpper(c)
    case LitRest => IsLitRest(c)
  }

  /** The end of the run of characters of a class that starts at pos. */
  function RunEnd(s: string, pos: nat, class_: Class): (e: nat)
    requires pos <= |s|
    ensures pos <= e <= |s|
    decreases |s| - pos
  {
    if pos < |s| && InClass(s[pos], class_) then RunEnd(s, pos + 1, class_) else pos
  }

  // ---------------------------------------------------------------- elements

  function Atom(t: NodeType, value: string): Node {
    Node(t, value, "", None, None, [], [], false)
  }

  function ChoiceOf(options: seq<Node>): Node {
    Node(Choice, "", "", None, None, options, [], true)
  }

  /** Either a node and the position after it, or the position of the error. */
  datatype Parsed = Parsed(n: Node, pos: nat) | Failed(pos: nat)

  function ParseElement(s: string, pos: nat): (r: Parsed)
    requires pos <= |s|
    ensures r.pos <= |s|
    ensures r.Parsed? ==> pos < r.pos
    decreases |s| - pos, 0
  {
    if StartsWith(s, pos, "<") then ParseChoice(s, pos)
    else if StartsWith(s, pos, "A.B.C.D") && IsElementEnd(s, pos + 7) then Parsed(Atom(ParamIPv4, ""), pos + 7)
    else if StartsWith(s, pos, "X:X:X::X") && IsElementEnd(s, pos + 8) then Parsed(Atom(ParamIPv6, ""), pos + 8)
    else
      var e := RunEnd(s, pos, Upper);
      if IsUpper(Peek(s, pos)) && IsElementEnd(s, e) then Parsed(Atom(ParamString, s[pos..e]), e)
      else if IsLitStart(Peek(s, pos)) then
        var l := RunEnd(s, pos, LitRest);
        if IsElementEnd(s, l) then Parsed(Atom(Literal, s[pos..l]), l) else Failed(pos)
      else Failed(pos)
  }

  function ParseChoice(s: string, pos: nat): (r: Parsed)
    requires pos < |s|
    ensures r.pos <= |s|
    ensures r.Parsed? ==> pos < r.pos
    decreases |s| - pos - 1, 2
  {
    var first := ParseElement(s, RunEnd(s, pos + 1, Blank));
    if first.Failed? then first else ParseOptions(s, first.pos, [first.n], pos)
  }

  /** The rest of a choice that started at start, after the options kids. */
  function ParseOptions(s: string, pos: nat, kids: seq<Node>, start: nat): (r: Parsed)
    requires start < pos <= |s|
    ensures r.pos <= |s|
    ensures r.Parsed? ==> pos < r.pos
    decreases |s| - pos, 1
  {
    var p := RunEnd(s, pos, Blank);
    if StartsWith(s, p, "|") then
      var next := ParseElement(s, RunEnd(s, p + 1, Blank));
      if next.Failed? then next else ParseOptions(s, next.pos, kids + [next.n], start)
    else if StartsWith(s, p, ">") && IsElementEnd(s, p + 1) then Parsed(ChoiceOf(kids), p + 1)
    else Failed(start)
  }

  // ---------------------------------------------------------------- commands

  /** All elements of the line, or the position of the first error. */
  datatype Elements = Elements(es: seq<Node>) | Broken(pos: nat)

  function ParseElements(s: string, pos: nat): (r: Elements)
    requires pos <= |s|
    ensures r.Elements? ==> r.es != []
    decreases |s| - pos
  {
    var first := ParseElement(s, RunEnd(s, pos, Blank));
    if first.Failed? then Broken(first.pos)
    else if IsEOL(s, RunEnd(s, first.pos, Blank)) then Elements([first.n])
    else
      match ParseElements(s, RunEnd(s, first.pos, Blank))
      case Broken(p) => Broken(p)
      case Elements(es) => Elements([first.n] + es)
  }

  /** Puts next below e: below every option, if e is a choice. */
  function Link(e: Node, next: Node): Node {
    if e.t.Choice? then
      e.(children := seq(|e.children|, i requires 0 <= i < |e.children| =>
        e.children[i].(children := e.children[i].children + [next])))
    else e.(children := e.children + [next])
  }

  /** The chain of elements es. */
  function Chain(es: seq<Node>): Node
    requires es != []
  {
    if |es| == 1 then es[0] else Link(es[0], Chain(es[1..]))
  }

  // ---------------------------------------------------------------- printing

  /** Node.String. */
  function Text(n: Node): string {
    match n.t
    case Literal => n.value
    case ParamString => n.value
    case ParamIPv4 => "A.B.C.D"
    case ParamIPv6 => "X:X:X::X"
    case Choice => "<" + (if n.children == [] then "" else Text(n.children[0]) + MoreText(n.children[1..])) + ">"
  }

  function MoreText(ns: seq<Node>): string {
    if ns == [] then "" else "|" + Text(ns[0]) + MoreText(ns[1..])
  }

  /** The elements printed one after the other, with gaps of the given widths before, between
      and after them. */
  function Line(es: seq<Node>, gaps: seq<nat>): string
    requires |gaps| == |es| + 1
  {
    if es == [] then Blanks(gaps[0])
    else Blanks(gaps[0]) + Text(es[0]) + Line(es[1..], gaps[1..])
  }

  /** [A-Z]+. */
  ghost predicate Capitals(w: string) {
    w != "" && forall i :: 0 <= i < |w| ==> 'A' <= w[i] <= 'Z'
  }

  /** [a-zA-Z][a-zA-Z0-9_-]*, but not [A-Z]+. */
  ghost predicate LiteralWord(w: string) {
    && w != "" && ('a' <= w[0] <= 'z' || 'A' <= w[0] <= 'Z')
    && (forall i :: 0 <= i < |w| ==>
         'a' <= w[i] <= 'z' || 'A' <= w[i] <= 'Z' || '0' <= w[i] <= '9' || w[i] == '_' || w[i] == '-')
    && exists i :: 0 <= i < |w| && !('A' <= w[i] <= 'Z')
  }

  /** What the grammar can express as one literal or parameter. */
  ghost predicate PlainAtom(n: Node) {
    && n == Atom(n.t, n.value)
    && match n.t
       case Literal => LiteralWord(n.value)
       case ParamString => Capitals(n.value)
       case ParamIPv4 => n.value == ""
       case ParamIPv6 => n.value == ""
       case Choice => false
  }

  ghost predicate PlainElement(n: Node) {
    || PlainAtom(n)
    || (n == ChoiceOf(n.children) && n.children != [] && PlainAtoms(n.children))
  }

  ghost predicate PlainAtoms(ns: seq<Node>) {
    forall i :: 0 <= i < |ns| ==> PlainAtom(ns[i])
  }

  lemma PlainTail(ns: seq<Node>)
    requires PlainAtoms(ns) && ns != []
    ensures PlainAtom(ns[0]) && PlainAtoms(ns[1..])
  {
  }

  // ---------------------------------------------------------------- reading what was printed

  ghost predicate At(s: string, pos: nat, w: string) {
    pos + |w| <= |s| && forall i :: 0 <= i < |w| ==> s[pos + i] == w[i]
  }

  lemma AtStarts(s: string, pos: nat, w: string)
    ensures StartsWith(s, pos, w) <==> At(s, pos, w)
  {
    if StartsWith(s, pos, w) {
      assert forall i :: 0 <= i < |w| ==> s[pos..][i] == w[i];
    }
    if At(s, pos, w) {
      assert s[pos..][..|w|] == w;
    }
  }

  lemma AtConcat(s: string, pos: nat, a: string, b: string)
    ensures At(s, pos, a + b) <==> At(s, pos, a) && At(s, pos + |a|, b)
  {
    if At(s, pos, a + b) {
      assert forall i :: 0 <= i < |a| ==> (a + b)[i] == a[i];
      forall i | 0 <= i < |b| ensures s[pos + |a| + i] == b[i] {
        assert (a + b)[|a| + i] == b[i];
        assert s[pos + (|a| + i)] == (a + b)[|a| + i];
      }
    }
    if At(s, pos, a) && At(s, pos + |a|, b) {
      forall i | 0 <= i < |a + b| ensures s[pos + i] == (a + b)[i] {
        if i >= |a| {
          assert s[pos + |a| + (i - |a|)] == b[i - |a|];
        }
      }
    }
  }

  lemma {:induction false} RunIs(s: string, pos: nat, class_: Class, k: nat)
    requires pos + k <= |s| && forall i :: pos <= i < pos + k ==> InClass(s[i], class_)
    requires pos + k == |s| || !InClass(s[pos + k], class_)
    ensures RunEnd(s, pos, class_) == pos + k
    decreases k
  {
    if k > 0 {
      RunIs(s, pos + 1, class_, k - 1);
    }
  }

  lemma {:induction false} ReadAtom(s: string, pos: nat, a: Node)
    requires PlainAtom(a) && At(s, pos, Text(a)) && IsElementEnd(s, pos + |Text(a)|)
    ensures ParseElement(s, pos) == Parsed(a, pos + |Text(a)|)
  {
    hide ParseChoice, Capitals, LiteralWord;
    AtStarts(s, pos, "<");
    AtStarts(s, pos, "A.B.C.D");
    AtStarts(s, pos, "X:X:X::X");
    if a.t.ParamIPv4? || a.t.ParamIPv6? {
      assert s[pos] == s[pos + 0] == Text(a)[0];
      assert "A.B.C.D"[0] == 'A' && "X:X:X::X"[0] == 'X' && "<"[0] == '<';
    } else {
      ReadWord(s, pos, a);
    }
  }

  lemma ReadWord(s: string, pos: nat, a: Node)
    requires PlainAtom(a) && (a.t.ParamString? || a.t.Literal?)
    requires At(s, pos, a.value) && IsElementEnd(s, pos + |a.value|)
    ensures ParseElement(s, pos) == Parsed(a, pos + |a.value|)
  {
    hide ParseElement, RunEnd, Text;
    var w := a.value;
    AtStarts(s, pos, "<");
    AtStarts(s, pos, "A.B.C.D");
    AtStarts(s, pos, "X:X:X::X");
    assert s[pos] == s[pos + 0] == w[0];
    assert s[pos..pos + |w|] == w;
    hide At, StartsWith;
    NoDots(s, pos, w);
    WordUnfold(s, pos);
    if a.t.ParamString? {
      WordIsRun(s, pos, w, Upper);
    } else {
      WordIsRun(s, pos, w, LitRest);
      UpperRunInside(s, pos, w);
    }
  }

  /** What is no choice and no address parameter is read as a word. */
  lemma WordUnfold(s: string, pos: nat)
    requires pos < |s|
    requires !StartsWith(s, pos, "<") && !StartsWith(s, pos, "A.B.C.D") && !StartsWith(s, pos, "X:X:X::X")
    ensures var e, l := RunEnd(s, pos, Upper), RunEnd(s, pos, LitRest);
      ParseElement(s, pos) ==
        if IsUpper(s[pos]) && IsElementEnd(s, e) then Parsed(Atom(ParamString, s[pos..e]), e)
        else if IsLitStart(s[pos]) && IsElementEnd(s, l) then Parsed(Atom(Literal, s[pos..l]), l)
        else Failed(pos)
  {
    hide StartsWith, RunEnd, IsElementEnd;
  }

  lemma WordIsRun(s: string, pos: nat, w: string, class_: Class)
    requires At(s, pos, w) && (forall i :: 0 <= i < |w| ==> InClass(w[i], class_))
    requires IsElementEnd(s, pos + |w|) && class_ != Blank
    ensures RunEnd(s, pos, class_) == pos + |w|
  {
    forall i | pos <= i < pos + |w| ensures InClass(s[i], class_) {
      assert s[pos + (i - pos)] == w[i - pos];
    }
    RunIs(s, pos, class_, |w|);
  }

  /** A word without dots and colons, at its end, is not an address parameter. */
  lemma NoDots(s: string, pos: nat, w: string)
    requires w != "" && At(s, pos, w) && IsElementEnd(s, pos + |w|)
    requires forall i :: 0 <= i < |w| ==> IsLitRest(w[i])
    ensures !At(s, pos, "A.B.C.D") && !At(s, pos, "X:X:X::X") && !At(s, pos, "<")
  {
    var c := Peek(s, pos + 1);
    assert c != '.' && c != ':' by {
      if |w| > 1 {
        assert s[pos + 1] == w[1];
      }
    }
    assert s[pos + 0] == w[0];
    assert "A.B.C.D"[1] == '.' && "X:X:X::X"[1] == ':' && "<"[0] == '<';
  }

  /** The run of capitals at the start of a literal ends inside the literal. */
  lemma UpperRunInside(s: string, pos: nat, w: string)
    requires w != "" && At(s, pos, w) && forall i :: 0 <= i < |w| ==> IsLitRest(w[i])
    requires exists i :: 0 <= i < |w| && !IsUpper(w[i])
    ensures !IsElementEnd(s, RunEnd(s, pos, Upper))
  {
    var k :| 0 <= k < |w| && !IsUpper(w[k]);
    assert s[pos + k] == w[k];
    RunStops(s, pos, Upper, pos + k);
    var e := RunEnd(s, pos, Upper);
    assert s[pos + (e - pos)] == w[e - pos];
  }

  lemma {:induction false} RunStops(s: string, pos: nat, class_: Class, q: nat)
    requires pos <= q < |s| && !InClass(s[q], class_)
    ensures RunEnd(s, pos, class_) <= q
    decreases q - pos
  {
    if pos < q && InClass(s[pos], class_) {
      RunStops(s, pos + 1, class_, q);
    }
  }

  /** An option with no blanks before it. */
  lemma ReadOption(s: string, pos: nat, a: Node)
    requires PlainAtom(a) && At(s, pos, Text(a)) && IsElementEnd(s, pos + |Text(a)|)
    ensures ParseElement(s, RunEnd(s, pos, Blank)) == Parsed(a, pos + |Text(a)|)
  {
    FirstChar(a);
    assert s[pos + 0] == Text(a)[0];
    RunIs(s, pos, Blank, 0);
    ReadAtom(s, pos, a);
  }

  lemma OptionLayout(s: string, pos: nat, rest: seq<Node>)
    requires rest != [] && At(s, pos, MoreText(rest) + ">")
    ensures At(s, pos, "|") && At(s, pos + 1, Text(rest[0]))
    ensures var q := pos + 1 + |Text(rest[0])|;
      At(s, q, MoreText(rest[1..]) + ">") && IsElementEnd(s, q)
    ensures |MoreText(rest)| == 1 + |Text(rest[0])| + |MoreText(rest[1..])|
  {
    hide At, Text;
    var o, more := Text(rest[0]), MoreText(rest[1..]);
    assert MoreText(rest) + ">" == "|" + (o + (more + ">"));
    AtConcat(s, pos, "|", o + (more + ">"));
    AtConcat(s, pos + 1, o, more + ">");
    OptionEnds(s, pos + 1 + |o|, rest[1..]);
  }

  lemma NoBlank(s: string, pos: nat, w: string)
    requires At(s, pos, w) && w != "" && w[0] != ' '
    ensures RunEnd(s, pos, Blank) == pos
  {
    assert s[pos + 0] == w[0];
  }

  lemma OneMoreOption(s: string, pos: nat, kids: seq<Node>, start: nat, o: Node, e: nat)
    requires start < pos <= |s| && RunEnd(s, pos, Blank) == pos && StartsWith(s, pos, "|")
    requires pos < |s| && ParseElement(s, RunEnd(s, pos + 1, Blank)) == Parsed(o, e)
    ensures pos < e <= |s| && ParseOptions(s, pos, kids, start) == ParseOptions(s, e, kids + [o], start)
  {
  }

  lemma LastOption(s: string, pos: nat, kids: seq<Node>, start: nat)
    requires start < pos && At(s, pos, ">") && IsElementEnd(s, pos + 1)
    ensures ParseOptions(s, pos, kids, start) == Parsed(ChoiceOf(kids), pos + 1)
  {
    assert s[pos + 0] == ">"[0];
    AtStarts(s, pos, "|");
    AtStarts(s, pos, ">");
    NoBlank(s, pos, ">");
  }

  lemma FirstOption(s: string, pos: nat, o: Node, e: nat)
    requires pos < |s| && ParseElement(s, RunEnd(s, pos + 1, Blank)) == Parsed(o, e)
    ensures pos < e <= |s| && ParseChoice(s, pos) == ParseOptions(s, e, [o], pos)
  {
  }

  lemma ReadOneOption(s: string, pos: nat, kids: seq<Node>, rest: seq<Node>, start: nat)
    requires start < pos && rest != [] && PlainAtom(rest[0])
    requires At(s, pos, MoreText(rest) + ">")
    ensures var e := pos + 1 + |Text(rest[0])|;
      && At(s, e, MoreText(rest[1..]) + ">")
      && e + |MoreText(rest[1..])| == pos + |MoreText(rest)|
      && pos <= |s| && e <= |s|
      && ParseOptions(s, pos, kids, start) == ParseOptions(s, e, kids + [rest[0]], start)
  {
    hide ParseElement, ParseOptions, At, Text, PlainAtom;
    OptionLayout(s, pos, rest);
    AtStarts(s, pos, "|");
    NoBlank(s, pos, "|");
    ReadOption(s, pos + 1, rest[0]);
    OneMoreOption(s, pos, kids, start, rest[0], pos + 1 + |Text(rest[0])|);
  }

  lemma {:induction false} ReadOptions(s: string, pos: nat, kids: seq<Node>, rest: seq<Node>, start: nat)
    requires start < pos && PlainAtoms(rest)
    requires At(s, pos, MoreText(rest) + ">") && IsElementEnd(s, pos + |MoreText(rest)| + 1)
    ensures ParseOptions(s, pos, kids, start) == Parsed(ChoiceOf(kids + rest), pos + |MoreText(rest)| + 1)
    decreases |rest|
  {
    hide ParseElement, ParseOptions, At, PlainAtom;
    if rest == [] {
      assert MoreText(rest) + ">" == ">";
      LastOption(s, pos, kids, start);
      assert kids + rest == kids;
    } else {
      var e := pos + 1 + |Text(rest[0])|;
      PlainTail(rest);
      ReadOneOption(s, pos, kids, rest, start);
      ReadOptions(s, e, kids + [rest[0]], rest[1..], start);
      assert kids + [rest[0]] + rest[1..] == kids + rest;
    }
  }

  lemma FirstChar(a: Node)
    requires PlainAtom(a)
    ensures Text(a) != "" && Text(a)[0] != ' ' && Text(a)[0] != '\n' && Text(a)[0] != '|' && Text(a)[0] != '>' &&
      Text(a)[0] != '<'
  {
  }

  /** What follows an option, '|' or '>', ends it. */
  lemma OptionEnds(s: string, pos: nat, rest: seq<Node>)
    requires At(s, pos, MoreText(rest) + ">")
    ensures IsElementEnd(s, pos)
  {
    var w := MoreText(rest) + ">";
    assert w[0] == '|' || w[0] == '>';
    assert s[pos + 0] == w[0];
  }

  lemma ChoiceLayout(s: string, pos: nat, n: Node)
    requires n.t.Choice? && n.children != [] && At(s, pos, Text(n))
    ensures At(s, pos, "<") && At(s, pos + 1, Text(n.children[0]))
    ensures var q := pos + 1 + |Text(n.children[0])|;
      At(s, q, MoreText(n.children[1..]) + ">") && IsElementEnd(s, q)
    ensures |Text(n)| == 2 + |Text(n.children[0])| + |MoreText(n.children[1..])|
  {
    var o, more := Text(n.children[0]), MoreText(n.children[1..]);
    assert Text(n) == "<" + (o + (more + ">"));
    AtConcat(s, pos, "<", o + (more + ">"));
    AtConcat(s, pos + 1, o, more + ">");
    OptionEnds(s, pos + 1 + |o|, n.children[1..]);
  }

  lemma ReadFirstOption(s: string, pos: nat, n: Node)
    requires n.t.Choice? && n.children != [] && PlainAtom(n.children[0])
    requires At(s, pos, Text(n))
    ensures var e := pos + 1 + |Text(n.children[0])|;
      && At(s, e, MoreText(n.children[1..]) + ">")
      && e + |MoreText(n.children[1..])| + 1 == pos + |Text(n)|
      && pos < |s| && e <= |s| && StartsWith(s, pos, "<")
      && ParseChoice(s, pos) == ParseOptions(s, e, [n.children[0]], pos)
  {
    hide ParseElement, ParseOptions, ParseChoice, PlainAtom;
    ChoiceLayout(s, pos, n);
    AtStarts(s, pos, "<");
    ReadOption(s, pos + 1, n.children[0]);
    FirstOption(s, pos, n.children[0], pos + 1 + |Text(n.children[0])|);
  }

  lemma ReadLaterOptions(s: string, pos: nat, kids: seq<Node>, e: nat, end: nat)
    requires kids != [] && PlainAtoms(kids) && pos < e && end == e + |MoreText(kids[1..])| + 1
    requires At(s, e, MoreText(kids[1..]) + ">") && IsElementEnd(s, end)
    ensures e <= |s| && ParseOptions(s, e, [kids[0]], pos) == Parsed(ChoiceOf(kids), end)
  {
    ReadOptions(s, e, [kids[0]], kids[1..], pos);
    assert [kids[0]] + kids[1..] == kids;
  }

  lemma ReadChoice(s: string, pos: nat, n: Node, kids: seq<Node>)
    requires n == ChoiceOf(kids) && kids != [] && PlainAtoms(kids)
    requires At(s, pos, Text(n)) && IsElementEnd(s, pos + |Text(n)|)
    ensures pos < |s| && StartsWith(s, pos, "<")
    ensures ParseChoice(s, pos) == Parsed(n, pos + |Text(n)|)
  {
    hide ParseElement, ParseOptions, ParseChoice, At;
    var e, end := pos + 1 + |Text(kids[0])|, pos + |Text(n)|;
    assert n.children == kids;
    ReadFirstOption(s, pos, n);
    ReadLaterOptions(s, pos, kids, e, end);
  }

  // ---------------------------------------------------------------- round trip

  ghost predicate PlainElements(es: seq<Node>) {
    forall e :: e in es ==> PlainElement(e)
  }

  /** Gaps between elements are not empty; those before the first and after the last may be. */
  predicate Separated(gaps: seq<nat>) {
    forall i :: 0 < i < |gaps| - 1 ==> gaps[i] > 0
  }

  lemma ReadPlain(s: string, pos: nat, e: Node)
    requires PlainElement(e) && At(s, pos, Text(e)) && IsElementEnd(s, pos + |Text(e)|)
    ensures ParseElement(s, pos) == Parsed(e, pos + |Text(e)|)
  {
    if e.t.Choice? {
      ReadChoice(s, pos, e, e.children);
    } else {
      ReadAtom(s, pos, e);
    }
  }

  lemma FirstOfElement(e: Node)
    requires PlainElement(e)
    ensures Text(e) != "" && Text(e)[0] != ' ' && Text(e)[0] != '\n'
  {
    if !e.t.Choice? {
      FirstChar(e);
    }
  }

  lemma SkipGap(s: string, pos: nat, gap: nat)
    requires At(s, pos, Blanks(gap))
    requires pos + gap == |s| || s[pos + gap] != ' '
    ensures RunEnd(s, pos, Blank) == pos + gap
  {
    forall i | pos <= i < pos + gap ensures InClass(s[i], Blank) {
      assert s[pos + (i - pos)] == Blanks(gap)[i - pos];
    }
    RunIs(s, pos, Blank, gap);
  }

  lemma LineLayout(s: string, pos: nat, es: seq<Node>, gaps: seq<nat>)
    requires |gaps| == |es| + 1 && es != [] && At(s, pos, Line(es, gaps))
    ensures At(s, pos, Blanks(gaps[0])) && At(s, pos + gaps[0], Text(es[0]))
    ensures var q := pos + gaps[0] + |Text(es[0])|;
      At(s, q, Line(es[1..], gaps[1..])) && |Line(es, gaps)| == gaps[0] + |Text(es[0])| + |Line(es[1..], gaps[1..])|
  {
    hide At, Text;
    var a, b, c := Blanks(gaps[0]), Text(es[0]), Line(es[1..], gaps[1..]);
    assert Line(es, gaps) == a + (b + c);
    AtConcat(s, pos, a, b + c);
    AtConcat(s, pos + |a|, b, c);
  }

  /** The character after the gap that starts the rest of a line. */
  lemma AfterGap(s: string, pos: nat, es: seq<Node>, gaps: seq<nat>)
    requires |gaps| == |es| + 1 && (es != [] ==> PlainElement(es[0]))
    requires At(s, pos, Line(es, gaps)) && IsEOL(s, pos + |Line(es, gaps)|)
    ensures pos + gaps[0] <= |s| && At(s, pos, Blanks(gaps[0]))
    ensures es == [] ==> IsEOL(s, pos + gaps[0]) && (pos + gaps[0] == |s| || s[pos + gaps[0]] != ' ')
    ensures es != [] ==> !IsEOL(s, pos + gaps[0]) && s[pos + gaps[0]] != ' '
  {
    if es != [] {
      LineLayout(s, pos, es, gaps);
      FirstOfElement(es[0]);
      assert s[pos + gaps[0] + 0] == Text(es[0])[0];
    }
  }

  /** The gap before an element and what follows it. */
  lemma FirstGap(s: string, pos: nat, es: seq<Node>, gaps: seq<nat>)
    requires |gaps| == |es| + 1 && (es != [] ==> PlainElement(es[0]))
    requires At(s, pos, Line(es, gaps)) && IsEOL(s, pos + |Line(es, gaps)|)
    ensures pos + gaps[0] <= |s| && RunEnd(s, pos, Blank) == pos + gaps[0]
    ensures IsEOL(s, pos + gaps[0]) <==> es == []
    ensures pos + gaps[0] == |s| || s[pos + gaps[0]] != ' '
    ensures gaps[0] > 0 ==> s[pos] == ' '
  {
    AfterGap(s, pos, es, gaps);
    SkipGap(s, pos, gaps[0]);
    if gaps[0] > 0 {
      assert s[pos + 0] == Blanks(gaps[0])[0];
    }
  }

  /** The first element of a line is read, and so is the gap after it. */
  lemma ReadFirst(s: string, pos: nat, es: seq<Node>, gaps: seq<nat>)
    requires |gaps| == |es| + 1 && es != [] && Separated(gaps)
    requires PlainElement(es[0]) && (|es| > 1 ==> PlainElement(es[1]))
    requires At(s, pos, Line(es, gaps)) && IsEOL(s, pos + |Line(es, gaps)|)
    ensures RunEnd(s, pos, Blank) == pos + gaps[0] <= |s|
    ensures ParseElement(s, pos + gaps[0]) == Parsed(es[0], pos + gaps[0] + |Text(es[0])|)
    ensures var q := pos + gaps[0] + |Text(es[0])|;
      && q + gaps[1] <= |s|
      && RunEnd(s, q, Blank) == q + gaps[1]
      && (IsEOL(s, q + gaps[1]) <==> |es| == 1)
      && (q + gaps[1] == |s| || s[q + gaps[1]] != ' ')
  {
    hide ParseElement, At, Line, Text, PlainElement, RunEnd;
    LineLayout(s, pos, es, gaps);
    FirstGap(s, pos, es, gaps);
    var q := pos + gaps[0] + |Text(es[0])|;
    FirstGap(s, q, es[1..], gaps[1..]);
    assert IsElementEnd(s, q);
    ReadPlain(s, pos + gaps[0], es[0]);
  }

  lemma RestOfLine(s: string, pos: nat, es: seq<Node>, gaps: seq<nat>)
    requires |gaps| == |es| + 1 && |es| > 1 && PlainElements(es) && Separated(gaps)
    requires At(s, pos, Line(es, gaps)) && IsEOL(s, pos + |Line(es, gaps)|)
    ensures PlainElements(es[1..]) && Separated(gaps[1..])
    ensures var q := pos + gaps[0] + |Text(es[0])|;
      At(s, q, Line(es[1..], gaps[1..])) && IsEOL(s, q + |Line(es[1..], gaps[1..])|)
  {
    LineLayout(s, pos, es, gaps);
    assert forall i :: 0 < i < |gaps[1..]| - 1 ==> gaps[1..][i] == gaps[i + 1];
    assert forall e :: e in es[1..] ==> e in es;
  }

  lemma {:induction false} ReadLine(s: string, pos: nat, es: seq<Node>, gaps: seq<nat>)
    requires |gaps| == |es| + 1 && es != [] && PlainElements(es) && Separated(gaps)
    requires At(s, pos, Line(es, gaps)) && IsEOL(s, pos + |Line(es, gaps)|)
    ensures ParseElements(s, pos) == Elements(es)
    decreases |es|
  {
    hide ParseElement, ParseElements, Line, Text, RunEnd;
    var q := pos + gaps[0] + |Text(es[0])|;
    assert es[0] in es && (|es| > 1 ==> es[1] in es);
    ReadFirst(s, pos, es, gaps);
    if |es| == 1 {
      assert es == [es[0]];
      FinalElement(s, pos, pos + gaps[0], es[0], q, gaps[1]);
    } else {
      RestOfLine(s, pos, es, gaps);
      ReadLine(s, q, es[1..], gaps[1..]);
      assert es == [es[0]] + es[1..];
      OneMoreElement(s, pos, pos + gaps[0], es[0], q, gaps[1], es[1..]);
    }
  }

  lemma FinalElement(s: string, pos: nat, p: nat, e: Node, q: nat, gap: nat)
    requires pos <= |s| && RunEnd(s, pos, Blank) == p && ParseElement(s, p) == Parsed(e, q)
    requires RunEnd(s, q, Blank) == q + gap && IsEOL(s, q + gap)
    ensures ParseElements(s, pos) == Elements([e])
  {
  }

  lemma OneMoreElement(s: string, pos: nat, p: nat, e: Node, q: nat, gap: nat, rest: seq<Node>)
    requires pos <= |s| && RunEnd(s, pos, Blank) == p && ParseElement(s, p) == Parsed(e, q)
    requires q + gap <= |s| && RunEnd(s, q, Blank) == q + gap && !IsEOL(s, q + gap)
    requires q + gap == |s| || s[q + gap] != ' '
    requires ParseElements(s, q) == Elements(rest)
    ensures ParseElements(s, pos) == Elements([e] + rest)
  {
    ParseFrom(s, q, gap);
  }

  /** Blanks skipped once or twice make no difference. */
  lemma ParseFrom(s: string, pos: nat, gap: nat)
    requires pos + gap <= |s| && RunEnd(s, pos, Blank) == pos + gap
    requires pos + gap == |s| || s[pos + gap] != ' '
    ensures ParseElements(s, pos) == ParseElements(s, pos + gap)
  {
    RunIs(s, pos + gap, Blank, 0);
  }

  /** Printing elements and parsing the line gives the same elements. */
  lemma RoundTrip(es: seq<Node>, gaps: seq<nat>)
    requires |gaps| == |es| + 1 && es != [] && PlainElements(es) && Separated(gaps)
    ensures ParseElements(Line(es, gaps), 0) == Elements(es)
  {
    ReadLine(Line(es, gaps), 0, es, gaps);
  }
}
