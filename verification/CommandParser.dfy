// The recursive-descent parser for declarations, moving a position through the text.

module CommandParser {
  import opened Prelude
  import opened CommandTree
  import opened CommandTypes
  import opened CommandGrammar

  class Parser {
    const s: string
    var pos: nat

    constructor (s: string)
      ensures this.s == s && pos == 0
    {
      this.s := s;
      pos := 0;
    }

    method SkipWhitespace()
      requires pos <= |s|
      modifies this
      ensures pos == RunEnd(s, old(pos), Blank)
    {
      while Peek(s, pos) == ' '
        invariant pos <= |s| && RunEnd(s, pos, Blank) == RunEnd(s, old(pos), Blank)
        decreases |s| - pos
      {
        pos := pos + 1;
      }
    }

    method Consume(w: string) returns (ok: bool)
      requires pos <= |s|
      modifies this
      ensures ok == StartsWith(s, old(pos), w)
      ensures pos == if ok then old(pos) + |w| else old(pos)
      ensures pos <= |s|
    {
      ok := HasPrefix(s[pos..], w);
      if ok {
        pos := pos + |w|;
      }
    }

    /** The state after an operation that was expected to give r. */
    ghost predicate Gives(n: Option<Node>, r: Parsed)
      reads this
    {
      && pos == r.pos
      && n == match r case Parsed(e, _) => Some(e) case Failed(_) => None
    }

    method ParseElement() returns (n: Option<Node>)
      requires pos <= |s|
      modifies this
      ensures Gives(n, CommandGrammar.ParseElement(s, old(pos)))
      decreases |s| - pos, 0
    {
      if HasPrefix(s[pos..], "<") {
        n := ParseChoice();
        return;
      }
      if HasPrefix(s[pos..], "A.B.C.D") {
        n := ParseFixedParam("A.B.C.D", ParamIPv4);
        if n.Some? {
          return;
        }
      }
      if HasPrefix(s[pos..], "X:X:X::X") {
        n := ParseFixedParam("X:X:X::X", ParamIPv6);
        if n.Some? {
          return;
        }
      }
      if 'A' <= Peek(s, pos) <= 'Z' {
        n := ParseStringParam();
        if n.Some? {
          return;
        }
      }
      if IsLitStart(Peek(s, pos)) {
        n := ParseLiteral();
        return;
      }
      n := None;
    }

    /** parseIPv4Param and parseIPv6Param. */
    method ParseFixedParam(w: string, t: NodeType) returns (n: Option<Node>)
      requires pos <= |s| && StartsWith(s, pos, w)
      modifies this
      ensures IsElementEnd(s, old(pos) + |w|) ==> n == Some(Atom(t, "")) && pos == old(pos) + |w|
      ensures !IsElementEnd(s, old(pos) + |w|) ==> n == None && pos == old(pos)
    {
      var start := pos;
      var ok := Consume(w);
      if !IsElementEnd(s, pos) {
        pos := start;
        return None;
      }
      n := Some(Atom(t, ""));
    }

    method ParseStringParam() returns (n: Option<Node>)
      requires pos < |s| && IsUpper(s[pos])
      modifies this
      ensures var e := RunEnd(s, old(pos), Upper);
        if IsElementEnd(s, e) then n == Some(Atom(ParamString, s[old(pos)..e])) && pos == e
        else n == None && pos == old(pos)
    {
      var start := pos;
      var runes := [s[pos]];
      pos := pos + 1;
      while 'A' <= Peek(s, pos) <= 'Z'
        invariant start < pos <= |s| && runes == s[start..pos]
        invariant RunEnd(s, pos, Upper) == RunEnd(s, start, Upper)
        decreases |s| - pos
      {
        runes := runes + [s[pos]];
        pos := pos + 1;
      }
      if !IsElementEnd(s, pos) {
        pos := start;
        return None;
      }
      n := Some(Atom(ParamString, runes));
    }

    method ParseLiteral() returns (n: Option<Node>)
      requires pos < |s| && IsLitStart(s[pos])
      modifies this
      ensures var e := RunEnd(s, old(pos), LitRest);
        if IsElementEnd(s, e) then n == Some(Atom(Literal, s[old(pos)..e])) && pos == e
        else n == None && pos == old(pos)
    {
      var start := pos;
      var runes := [s[pos]];
      pos := pos + 1;
      while IsLitRest(Peek(s, pos))
        invariant start < pos <= |s| && runes == s[start..pos]
        invariant RunEnd(s, pos, LitRest) == RunEnd(s, start, LitRest)
        decreases |s| - pos
      {
        runes := runes + [s[pos]];
        pos := pos + 1;
      }
      if !IsElementEnd(s, pos) {
        pos := start;
        return None;
      }
      n := Some(Atom(Literal, runes));
    }

    method ParseChoice() returns (n: Option<Node>)
      requires pos < |s|
      modifies this
      ensures Gives(n, CommandGrammar.ParseChoice(s, old(pos)))
      decreases |s| - pos - 1, 2
    {
      var start := pos;
      pos := pos + 1;
      SkipWhitespace();
      ghost var first := CommandGrammar.ParseElement(s, pos);
      var child := ParseElement();
      if child.None? {
        return None;
      }
      n := ParseOptionList([child.value], start);
    }

    /** The rest of a choice that started at start, after its first option. */
    method ParseOptionList(first: seq<Node>, start: nat) returns (n: Option<Node>)
      requires start < pos <= |s|
      modifies this
      ensures Gives(n, ParseOptions(s, old(pos), first, start))
      decreases |s| - pos, 1
    {
      hide RunEnd, CommandGrammar.ParseElement;
      var kids := first;
      while true
        invariant start < old(pos) <= pos <= |s|
        invariant ParseOptions(s, pos, kids, start) == ParseOptions(s, old(pos), first, start)
        decreases |s| - pos
      {
        ghost var before := pos;
        SkipWhitespace();
        var more := Consume("|");
        if !more {
          n := FinishChoice(kids, start, before);
          return;
        }
        SkipWhitespace();
        var child := ParseElement();
        if child.None? {
          return None;
        }
        kids := kids + [child.value];
      }
    }

    /** The end of a choice, where no further option follows. */
    method FinishChoice(kids: seq<Node>, start: nat, ghost before: nat) returns (n: Option<Node>)
      requires start < before <= |s| && pos == RunEnd(s, before, Blank) && !StartsWith(s, pos, "|")
      modifies this
      ensures Gives(n, ParseOptions(s, before, kids, start))
    {
      RunEndTwice(s, before, Blank);
      SkipWhitespace();
      var closed := Consume(">");
      if !closed {
        pos := start;
        return None;
      }
      if !IsElementEnd(s, pos) {
        pos := start;
        return None;
      }
      n := Some(ChoiceOf(kids));
    }
  }

  lemma {:induction false} RunEndTwice(s: string, pos: nat, class_: Class)
    requires pos <= |s|
    ensures RunEnd(s, RunEnd(s, pos, class_), class_) == RunEnd(s, pos, class_)
    decreases |s| - pos
  {
    if pos < |s| && InClass(s[pos], class_) {
      RunEndTwice(s, pos + 1, class_);
    }
  }

  // ---------------------------------------------------------------- declarations

  /** What a declaration means. */
  function Declared(s: string): Result<Node> {
    match ParseElements(s, 0)
    case Broken(_) => Err
    case Elements(es) => Ok(WithTypes(Chain(es), [TWriter]))
  }

  method ParseCommand(p: Parser) returns (r: Result<Node>)
    requires p.pos <= |p.s|
    modifies p
    ensures r == match ParseElements(p.s, old(p.pos)) case Broken(_) => Err case Elements(es) => Ok(Chain(es))
  {
    hide CommandGrammar.ParseElement, Chain, Link, RunEnd;
    p.SkipWhitespace();
    ghost var all := ParseElements(p.s, old(p.pos));
    var first := p.ParseElement();
    if first.None? {
      return Err;
    }
    var es := [first.value];
    while true
      invariant p.pos <= |p.s| && es != []
      invariant all == MoreElements(p.s, p.pos, es)
      decreases |p.s| - p.pos
    {
      RunEndTwice(p.s, p.pos, Blank);
      p.SkipWhitespace();
      if IsEOL(p.s, p.pos) {
        break;
      }
      var child := p.ParseElement();
      if child.None? {
        return Err;
      }
      es := es + [child.value];
    }
    var root := LinkAll(es);
    r := Ok(root);
  }

  /** The elements es already read, and those still to be read from pos on. */
  function MoreElements(s: string, pos: nat, es: seq<Node>): Elements
    requires pos <= |s|
  {
    if IsEOL(s, RunEnd(s, pos, Blank)) then Elements(es)
    else match ParseElements(s, RunEnd(s, pos, Blank))
      case Broken(p) => Broken(p)
      case Elements(more) => Elements(es + more)
  }

  /** The original hangs every element below the one before it as soon as it is read; on
      values the chain is put together from its end. */
  method LinkAll(es: seq<Node>) returns (root: Node)
    requires es != []
    ensures root == Chain(es)
  {
    var i := |es| - 1;
    root := es[i];
    assert es[i..] == [es[i]];
    while i > 0
      invariant 0 <= i < |es| && root == Chain(es[i..])
    {
      i := i - 1;
      assert es[i..][0] == es[i] && es[i..][1..] == es[i + 1..];
      root := Link(es[i], root);
    }
    assert es[0..] == es;
  }

  method ParseDeclaration(s: string) returns (r: Result<Node>)
    ensures r == Declared(s)
  {
    var p := new Parser(s);
    var n := ParseCommand(p);
    if n.Err? {
      return Err;
    }
    var typed := UpdateParamTypesWithTypes(n.value, [TWriter]);
    r := Ok(typed);
  }

  /** A printed chain of elements, however spaced, declares that chain. */
  lemma PrintedChainIsDeclared(es: seq<Node>, gaps: seq<nat>)
    requires |gaps| == |es| + 1 && es != [] && PlainElements(es) && Separated(gaps)
    ensures Declared(Line(es, gaps)) == Ok(WithTypes(Chain(es), [TWriter]))
  {
    RoundTrip(es, gaps);
  }
}
