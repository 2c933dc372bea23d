// The command tree of the CLI: nodes, their ids, and the two views of a tree that every
// later theorem is stated in: the commands it contains (AtPath) and the kind of
// continuation it has after a given prefix of a command (HeadAt).

module CommandTree {
  import opened Prelude

  datatype NodeType = Literal | ParamString | ParamIPv4 | ParamIPv6 | Choice

  /** The Go types that occur in handler signatures. */
  datatype Ty = TWriter | TString | TAddr | TBool

  /** A handler is opaque; only its function type is ever inspected. */
  datatype Handler = Handler(params: seq<Ty>, returnsError: bool, code: nat)

  /** What calling an autocomplete function yields. */
  datatype Completer = Options(options: seq<string>) | Failing

  datatype Node = Node(
    t: NodeType,
    value: string,
    description: string,
    handler: Option<Handler>,
    completer: Option<Completer>,
    children: seq<Node>,
    paramTypes: seq<Ty>,
    explicitChoice: bool)

  /** The part of a node that registering a command sets. */
  datatype Attrs = Attrs(description: string, handler: Option<Handler>, completer: Option<Completer>)

  function Id(n: Node): string {
    match n.t
    case Literal => "literal:" + n.value
    case ParamString => "param:string"
    case ParamIPv4 => "param:ipv4"
    case ParamIPv6 => "param:ipv6"
    case Choice => "choice"
  }

  function Ids(ns: seq<Node>): (ids: seq<string>)
    ensures |ids| == |ns|
    ensures forall i :: 0 <= i < |ns| ==> ids[i] == Id(ns[i])
  {
    seq(|ns|, i requires 0 <= i < |ns| => Id(ns[i]))
  }

  function AttrsOf(n: Node): Attrs {
    Attrs(n.description, n.handler, n.completer)
  }

  /** Two nodes share an id exactly when they are of one type and, for literals, one word. */
  lemma SameId(a: Node, b: Node)
    ensures Id(a) == Id(b) <==> a.t == b.t && (a.t.Literal? ==> a.value == b.value)
  {
    if a.t.Literal? && b.t.Literal? {
      assert Id(a)[|"literal:"|..] == a.value;
      assert Id(b)[|"literal:"|..] == b.value;
    } else if a.t.Literal? {
      assert Id(a)[0] == 'l' && Id(b)[0] != 'l';
    } else if b.t.Literal? {
      assert Id(b)[0] == 'l' && Id(a)[0] != 'l';
    } else {
      assert "param:string"[6] == 's' && "param:ipv4"[6] == 'i' && "param:ipv6"[6] == 'i';
      assert "param:ipv4"[9] == '4' && "param:ipv6"[9] == '6';
      assert "choice"[0] == 'c' && "param:string"[0] == 'p' && "param:ipv4"[0] == 'p' && "param:ipv6"[0] == 'p';
    }
  }

  /** The atoms a node offers: a choice offers its alternatives, an atom offers itself. */
  function Alts(n: Node): (ns: seq<Node>)
    ensures SizeAll(ns) <= Size(n)
  {
    if n.t.Choice? then n.children else assert SizeAll([n]) == Size(n) + SizeAll([]); [n]
  }

  /** The index of the first node of ns with the given id, or -1. */
  function FindIndex(ns: seq<Node>, id: string): (i: int)
    ensures -1 <= i < |ns|
    ensures i >= 0 ==> Id(ns[i]) == id && forall j :: 0 <= j < i ==> Id(ns[j]) != id
    ensures i == -1 ==> forall j :: 0 <= j < |ns| ==> Id(ns[j]) != id
  {
    if ns == [] then -1
    else if Id(ns[0]) == id then 0
    else var i := FindIndex(ns[1..], id); if i == -1 then -1 else i + 1
  }

  function Lookup(ns: seq<Node>, id: string): Option<Node> {
    var i := FindIndex(ns, id);
    if i == -1 then None else Some(ns[i])
  }

  predicate DistinctIds(ns: seq<Node>) {
    forall i, j :: 0 <= i < j < |ns| ==> Id(ns[i]) != Id(ns[j])
  }

  // ---------------------------------------------------------------- well-formedness

  /** The nodes the parser builds and Merge keeps: an atom has at most one child; a choice
      has only atoms below it, with distinct ids; and the options of an explicit choice
      all continue the same way. */
  predicate WellFormed(n: Node)
    decreases n, 2
  {
    if n.t.Choice? then
      && |n.children| > 0
      && WellFormedAlts(n.children)
      && (n.explicitChoice ==> SharedContinuation(n.children))
    else WellFormedAtom(n)
  }

  predicate WellFormedAtom(n: Node)
    decreases n, 0
  {
    && !n.t.Choice?
    && !n.explicitChoice
    && |n.children| <= 1
    && (forall c :: c in n.children ==> WellFormed(c))
  }

  predicate WellFormedAlts(ns: seq<Node>)
    decreases ns, 1
  {
    && (forall n :: n in ns ==> WellFormedAtom(n))
    && DistinctIds(ns)
  }

  predicate SharedContinuation(ns: seq<Node>) {
    forall i, j :: 0 <= i < |ns| && 0 <= j < |ns| ==> ns[i].children == ns[j].children
  }

  lemma AltsWellFormed(n: Node)
    requires WellFormed(n)
    ensures WellFormedAlts(Alts(n)) && |Alts(n)| > 0
  {
  }

  /** The one child of an atom, if it has one. */
  function Next(a: Node): Option<Node> {
    if a.children == [] then None else Some(a.children[0])
  }

  lemma LookupWellFormed(n: Node, id: string)
    requires WellFormed(n) && Lookup(Alts(n), id).Some?
    ensures var a := Lookup(Alts(n), id).value;
      WellFormedAtom(a) && Id(a) == id && (Next(a).Some? ==> WellFormed(Next(a).value))
  {
  }

  // ---------------------------------------------------------------- the two views

  /** The attributes at the end of the id path p, if the tree has that path. */
  function AtPath(n: Node, p: seq<string>): Option<Attrs>
    decreases |p|
  {
    if p == [] then None
    else match Lookup(Alts(n), p[0])
      case None => None
      case Some(a) =>
        if |p| == 1 then Some(AttrsOf(a))
        else match Next(a)
          case None => None
          case Some(c) => AtPath(c, p[1..])
  }

  predicate HasPath(n: Node, p: seq<string>) {
    AtPath(n, p).Some?
  }

  /** The node itself at the end of the id path p. */
  function NodeAt(n: Node, p: seq<string>): Option<Node>
    decreases |p|
  {
    if p == [] then None
    else match Lookup(Alts(n), p[0])
      case None => None
      case Some(a) => if |p| == 1 then Some(a) else if a.children == [] then None else NodeAt(a.children[0], p[1..])
  }

  lemma {:induction false} AtPathIs(n: Node, p: seq<string>)
    ensures AtPath(n, p) == match NodeAt(n, p)
      case None => None
      case Some(a) => Some(Attrs(a.description, a.handler, a.completer))
    decreases |p|
  {
    if |p| > 1 && Lookup(Alts(n), p[0]).Some? && Next(Lookup(Alts(n), p[0]).value).Some? {
      AtPathIs(Next(Lookup(Alts(n), p[0]).value).value, p[1..]);
    }
  }

  /** How a position continues: with an explicit choice of exactly these ids, or openly
      (an atom or an implicit choice, to which further alternatives may be merged). */
  datatype Head = Explicit(ids: seq<string>) | Open

  function HeadOf(n: Node): Head {
    if n.t.Choice? && n.explicitChoice then Explicit(Ids(n.children)) else Open
  }

  /** The head of what follows the id path p, if anything does. */
  function HeadAt(n: Node, p: seq<string>): Option<Head>
    decreases |p|
  {
    if p == [] then Some(HeadOf(n))
    else match Lookup(Alts(n), p[0])
      case None => None
      case Some(a) =>
        match Next(a)
        case None => None
        case Some(c) => HeadAt(c, p[1..])
  }

  // ---------------------------------------------------------------- size

  function Size(n: Node): (s: nat)
    ensures s > 0
  {
    1 + SizeAll(n.children)
  }

  function SizeAll(ns: seq<Node>): (s: nat)
    ensures forall n :: n in ns ==> Size(n) <= s
  {
    if ns == [] then 0 else Size(ns[0]) + SizeAll(ns[1..])
  }
}
