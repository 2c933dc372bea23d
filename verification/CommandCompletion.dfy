// TAB completion: the options for the last field of a line, and how they shrink as it grows.

module CommandCompletion {
  import opened Prelude
  import opened Addresses
  import opened CommandTree
  import opened CommandMerge
  import opened CommandMatch

  // ---------------------------------------------------------------- option lists

  /** options, then those of more that are new. */
  function AddOptions(options: seq<string>, more: seq<string>): seq<string> {
    if more == [] then options
    else
      var r := AddOptions(options, more[..|more| - 1]);
      var last := more[|more| - 1];
      if last in r then r else r + [last]
  }

  function WithPrefix(options: seq<string>, prefix: string): seq<string> {
    if options == [] then []
    else
      var r := WithPrefix(options[..|options| - 1], prefix);
      var last := options[|options| - 1];
      if HasPrefix(last, prefix) then r + [last] else r
  }

  /** getAutocompleteOptionsFromTokens. */
  function OptionsOf(n: Node, fields: seq<string>, v6: V6Parser): Result<seq<string>>
    requires fields != []
    decreases |fields|, 2, 0
  {
    OptionsOfAlts(n, |Alts(n)|, fields, v6)
  }

  function OptionsOfAlts(n: Node, k: nat, fields: seq<string>, v6: V6Parser): Result<seq<string>>
    requires fields != [] && k <= |Alts(n)|
    decreases |fields|, 1, k
  {
    if k == 0 then Ok([])
    else match OptionsOfAlts(n, k - 1, fields, v6)
      case Err => Err
      case Ok(options) =>
        match OptionsOfAtom(Alts(n)[k - 1], fields, v6)
        case Err => Err
        case Ok(more) => Ok(AddOptions(options, more))
  }

  function OptionsOfAtom(a: Node, fields: seq<string>, v6: V6Parser): Result<seq<string>>
    requires fields != []
    decreases |fields|, 0, 0
  {
    if |fields| == 1 then LastOptions(a, fields[0])
    else if AtomArgs(a, fields[0], v6).None? then Ok([])
    else match Next(a)
      case None => Ok([])
      case Some(c) => OptionsOf(c, fields[1..], v6)
  }

  /** The options an atom has for the last field. */
  function LastOptions(a: Node, field: string): Result<seq<string>> {
    if a.t.Literal? then Ok(if HasPrefix(a.value, field) then [a.value] else [])
    else match a.completer
      case None => Ok([])
      case Some(Failing) => Err
      case Some(Options(os)) => Ok(AddOptions([], WithPrefix(os, field)))
  }

  // ---------------------------------------------------------------- growing the last field

  lemma {:induction false} WithPrefixMember(os: seq<string>, f: string, o: string)
    ensures o in WithPrefix(os, f) <==> o in os && HasPrefix(o, f)
  {
    if os != [] {
      WithPrefixMember(os[..|os| - 1], f, o);
      assert os == os[..|os| - 1] + [os[|os| - 1]];
    }
  }

  /** Selecting by prefix looks at each option by itself and keeps their order. */
  lemma {:induction false} WithPrefixParts(a: seq<string>, b: seq<string>, f: string)
    ensures WithPrefix(a + b, f) == WithPrefix(a, f) + WithPrefix(b, f)
    ensures |a| == 1 ==> WithPrefix(a, f) == if f <= a[0] then a else []
    decreases |b|
  {
    if b == [] {
      assert a + b == a;
      assert |a| == 1 ==> a[..0] == [] && a == [a[0]];
    } else {
      var init, last := b[..|b| - 1], b[|b| - 1];
      assert a + b == a + init + [last] && b == init + [last];
      WithPrefixParts(a, init, f);
      WithPrefixSnoc(a + init, last, f);
      WithPrefixSnoc(init, last, f);
    }
  }

  lemma WithPrefixSnoc(os: seq<string>, o: string, f: string)
    ensures WithPrefix(os + [o], f) == if HasPrefix(o, f) then WithPrefix(os, f) + [o] else WithPrefix(os, f)
  {
    assert (os + [o])[..|os|] == os;
  }

  lemma AddOptionsSnoc(a: seq<string>, b: seq<string>, o: string)
    ensures AddOptions(a, b + [o]) == if o in AddOptions(a, b) then AddOptions(a, b) else AddOptions(a, b) + [o]
  {
    assert (b + [o])[..|b|] == b;
  }

  /** Selecting by prefix and removing repetitions commute. */
  lemma {:induction false} WithPrefixOfAdded(a: seq<string>, b: seq<string>, f: string)
    ensures WithPrefix(AddOptions(a, b), f) == AddOptions(WithPrefix(a, f), WithPrefix(b, f))
  {
    if b != [] {
      var init, last := b[..|b| - 1], b[|b| - 1];
      assert b == init + [last];
      WithPrefixOfAdded(a, init, f);
      WithPrefixSnoc(init, last, f);
      WithPrefixSnoc(AddOptions(a, init), last, f);
      AddOptionsSnoc(WithPrefix(a, f), WithPrefix(init, f), last);
      WithPrefixMember(AddOptions(a, init), f, last);
    }
  }

  lemma {:induction false} WithPrefixTwice(os: seq<string>, f: string, g: string)
    requires f <= g
    ensures WithPrefix(WithPrefix(os, f), g) == WithPrefix(os, g)
  {
    if os != [] {
      var init, last := os[..|os| - 1], os[|os| - 1];
      WithPrefixTwice(init, f, g);
      WithPrefixSnoc(WithPrefix(init, f), last, g);
      PrefixTransitive(f, g, last);
    }
  }

  lemma PrefixTransitive(f: string, g: string, o: string)
    requires f <= g
    ensures HasPrefix(o, g) ==> HasPrefix(o, f)
  {
  }

  lemma {:induction false} WithPrefixAll(os: seq<string>, f: string)
    requires forall o :: o in os ==> HasPrefix(o, f)
    ensures WithPrefix(os, f) == os
  {
    if os != [] {
      var init, last := os[..|os| - 1], os[|os| - 1];
      assert os == init + [last];
      WithPrefixAll(init, f);
    }
  }

  /** The options r narrowed to a prefix. */
  function Narrow(r: Result<seq<string>>, f: string): Result<seq<string>> {
    match r case Err => Err case Ok(os) => Ok(WithPrefix(os, f))
  }

  function ReplaceLast(fields: seq<string>, g: string): seq<string>
    requires fields != []
  {
    fields[..|fields| - 1] + [g]
  }

  /** Typing more of the last field narrows the options to those that start with it. */
  lemma {:induction false} GrowingNarrows(n: Node, k: nat, fields: seq<string>, g: string, v6: V6Parser)
    requires fields != [] && k <= |Alts(n)| && fields[|fields| - 1] <= g
    ensures OptionsOfAlts(n, k, ReplaceLast(fields, g), v6) == Narrow(OptionsOfAlts(n, k, fields, v6), g)
    decreases |fields|, 1, k
  {
    if k > 0 {
      GrowingNarrows(n, k - 1, fields, g, v6);
      GrowingNarrowsAtom(Alts(n)[k - 1], fields, g, v6);
      if OptionsOfAlts(n, k, fields, v6).Ok? {
        WithPrefixOfAdded(OptionsOfAlts(n, k - 1, fields, v6).value, OptionsOfAtom(Alts(n)[k - 1], fields, v6).value,
          g);
      }
    }
  }

  lemma {:induction false} GrowingNarrowsAtom(a: Node, fields: seq<string>, g: string, v6: V6Parser)
    requires fields != [] && fields[|fields| - 1] <= g
    ensures OptionsOfAtom(a, ReplaceLast(fields, g), v6) == Narrow(OptionsOfAtom(a, fields, v6), g)
    decreases |fields|, 0, 0
  {
    if |fields| == 1 {
      LastNarrows(a, fields[0], g);
    } else {
      assert ReplaceLast(fields, g)[1..] == ReplaceLast(fields[1..], g);
      if Next(a).Some? {
        var c := Next(a).value;
        GrowingNarrows(c, |Alts(c)|, fields[1..], g, v6);
      }
    }
  }

  lemma LastNarrows(a: Node, f: string, g: string)
    requires f <= g
    ensures LastOptions(a, g) == Narrow(LastOptions(a, f), g)
  {
    if a.t.Literal? {
      PrefixTransitive(f, g, a.value);
      assert WithPrefix([a.value], g) == if HasPrefix(a.value, g) then [a.value] else [] by {
        WithPrefixSnoc([], a.value, g);
        assert [] + [a.value] == [a.value];
      }
    } else if a.completer.Some? && a.completer.value.Options? {
      var os := a.completer.value.options;
      WithPrefixOfAdded([], WithPrefix(os, f), g);
      WithPrefixTwice(os, f, g);
    }
  }

  lemma {:induction false} OptionsHavePrefix(n: Node, k: nat, fields: seq<string>, v6: V6Parser)
    requires fields != [] && k <= |Alts(n)|
    ensures OptionsOfAlts(n, k, fields, v6).Ok? ==>
      forall o :: o in OptionsOfAlts(n, k, fields, v6).value ==> HasPrefix(o, fields[|fields| - 1])
  {
    var f := fields[|fields| - 1];
    GrowingNarrows(n, k, fields, f, v6);
    assert ReplaceLast(fields, f) == fields;
    if OptionsOfAlts(n, k, fields, v6).Ok? {
      var os := OptionsOfAlts(n, k, fields, v6).value;
      forall o | o in os ensures HasPrefix(o, f) {
        WithPrefixMember(os, f, o);
      }
    }
  }

  // ---------------------------------------------------------------- options against the tree

  lemma {:induction false} AddOptionsMember(a: seq<string>, b: seq<string>, o: string)
    ensures o in AddOptions(a, b) <==> o in a || o in b
    ensures Distinct(a) ==> Distinct(AddOptions(a, b))
  {
    if b != [] {
      var init, last := b[..|b| - 1], b[|b| - 1];
      assert b == init + [last];
      AddOptionsMember(a, init, o);
    }
  }

  /** The node at the end of p offers o: the literal's own word, or an option that the
      parameter's autocomplete function returns; either must start with the last field. */
  ghost predicate Offers(n: Node, p: seq<string>, field: string, o: string)
    requires HasPath(n, p)
  {
    && p != []
    && HasPrefix(o, field)
    && (if "literal:" <= p[|p| - 1] then o == p[|p| - 1][|"literal:"|..]
        else var c := AtPath(n, p).value.completer; c.Some? && c.value.Options? && o in c.value.options)
  }

  /** p accepts all fields but the last. */
  predicate LeadsPast(p: seq<string>, fields: seq<string>, v6: V6Parser) {
    |p| == |fields| && forall i :: 0 <= i < |p| - 1 ==> AcceptsId(p[i], fields[i], v6)
  }

  lemma LeadsPastRest(p: seq<string>, fields: seq<string>, v6: V6Parser)
    requires |p| == |fields| > 1
    ensures LeadsPast(p, fields, v6) <==> AcceptsId(p[0], fields[0], v6) && LeadsPast(p[1..], fields[1..], v6)
  {
    assert forall i :: 0 <= i < |p| - 1 ==> p[1..][i] == p[i + 1] && fields[1..][i] == fields[i + 1];
    if AcceptsId(p[0], fields[0], v6) && LeadsPast(p[1..], fields[1..], v6) {
      forall i | 0 <= i < |p| - 1 ensures AcceptsId(p[i], fields[i], v6) {
        if i > 0 {
          assert AcceptsId(p[1..][i - 1], fields[1..][i - 1], v6);
        }
      }
    }
  }

  /** p leads past all fields but the last, and its end offers o for the last. */
  ghost predicate Completes(n: Node, p: seq<string>, fields: seq<string>, v6: V6Parser, o: string)
    requires fields != []
  {
    HasPath(n, p) && LeadsPast(p, fields, v6) && Offers(n, p, fields[|fields| - 1], o)
  }

  /** p leads past all fields but the last, and the autocomplete function at its end fails. */
  ghost predicate Fails(n: Node, p: seq<string>, fields: seq<string>, v6: V6Parser) {
    && HasPath(n, p) && LeadsPast(p, fields, v6)
    && p != [] && !("literal:" <= p[|p| - 1]) && AtPath(n, p).value.completer == Some(Failing)
  }

  lemma LiteralId(a: Node)
    requires !a.t.Choice?
    ensures "literal:" <= Id(a) <==> a.t.Literal?
    ensures a.t.Literal? ==> Id(a)[|"literal:"|..] == a.value
  {
    if !a.t.Literal? {
      assert "param:string"[0] == 'p' && "param:ipv4"[0] == 'p' && "param:ipv6"[0] == 'p' && "literal:"[0] == 'l';
      assert Id(a)[0] == 'p';
    }
  }

  lemma LastOffers(n: Node, a: Node, field: string, o: string)
    requires WellFormed(n) && Lookup(Alts(n), Id(a)) == Some(a) && LastOptions(a, field).Ok?
    ensures HasPath(n, [Id(a)])
    ensures o in LastOptions(a, field).value <==> Offers(n, [Id(a)], field, o)
  {
    LookupWellFormed(n, Id(a));
    LiteralId(a);
    assert AtPath(n, [Id(a)]) == Some(AttrsOf(a));
    if !a.t.Literal? && a.completer.Some? {
      AddOptionsMember([], WithPrefix(a.completer.value.options, field), o);
      WithPrefixMember(a.completer.value.options, field, o);
    }
  }

  lemma OffersBelow(n: Node, a: Node, c: Node, p: seq<string>, fields: seq<string>, v6: V6Parser, o: string)
    requires |p| > 1 && p[0] == Id(a) && Lookup(Alts(n), Id(a)) == Some(a) && Next(a) == Some(c)
    requires |fields| == |p| && !a.t.Choice?
    ensures Completes(n, p, fields, v6, o) <==>
      AtomArgs(a, fields[0], v6).Some? && Completes(c, p[1..], fields[1..], v6, o)
  {
    hide AcceptsId, LeadsPast, AtPath;
    AtomAccepts(a, fields[0], v6);
    LeadsPastRest(p, fields, v6);
    PathBelow(n, a, c, p);
    assert p[1..][|p| - 2] == p[|p| - 1];
    assert fields[1..][|fields| - 2] == fields[|fields| - 1];
  }

  lemma PathBelow(n: Node, a: Node, c: Node, p: seq<string>)
    requires |p| > 1 && p[0] == Id(a) && Lookup(Alts(n), Id(a)) == Some(a) && Next(a) == Some(c)
    ensures AtPath(n, p) == AtPath(c, p[1..])
  {
  }

  lemma FailsBelow(n: Node, a: Node, c: Node, p: seq<string>, fields: seq<string>, v6: V6Parser)
    requires |p| > 1 && p[0] == Id(a) && Lookup(Alts(n), Id(a)) == Some(a) && Next(a) == Some(c)
    requires |fields| == |p| && !a.t.Choice?
    ensures Fails(n, p, fields, v6) <==> AtomArgs(a, fields[0], v6).Some? && Fails(c, p[1..], fields[1..], v6)
  {
    hide AcceptsId, LeadsPast, AtPath;
    AtomAccepts(a, fields[0], v6);
    LeadsPastRest(p, fields, v6);
    PathBelow(n, a, c, p);
    assert p[1..][|p| - 2] == p[|p| - 1];
  }

  lemma {:induction false} OptionsOrigin(n: Node, k: nat, fields: seq<string>, v6: V6Parser, o: string)
    requires fields != [] && k <= |Alts(n)| && OptionsOfAlts(n, k, fields, v6).Ok?
    ensures Distinct(OptionsOfAlts(n, k, fields, v6).value)
    ensures forall i :: 0 <= i < k ==> OptionsOfAtom(Alts(n)[i], fields, v6).Ok?
    ensures o in OptionsOfAlts(n, k, fields, v6).value <==>
      exists i :: 0 <= i < k && o in OptionsOfAtom(Alts(n)[i], fields, v6).value
  {
    hide OptionsOfAtom, AddOptions;
    if k > 0 {
      OptionsOrigin(n, k - 1, fields, v6, o);
      AddOptionsMember(OptionsOfAlts(n, k - 1, fields, v6).value, OptionsOfAtom(Alts(n)[k - 1], fields, v6).value, o);
    }
  }

  lemma {:induction false} OptionsSound(n: Node, fields: seq<string>, v6: V6Parser, o: string) returns (p: seq<string>)
    requires WellFormed(n) && fields != [] && OptionsOf(n, fields, v6).Ok? && o in OptionsOf(n, fields, v6).value
    ensures Completes(n, p, fields, v6, o)
    decreases |fields|
  {
    OptionsOrigin(n, |Alts(n)|, fields, v6, o);
    var k :| 0 <= k < |Alts(n)| && o in OptionsOfAtom(Alts(n)[k], fields, v6).value;
    var a := Alts(n)[k];
    AltsWellFormed(n);
    LookupIndex(Alts(n), k);
    LookupWellFormed(n, Id(a));
    if |fields| == 1 {
      LastOffers(n, a, fields[0], o);
      p := [Id(a)];
    } else {
      var c := Next(a).value;
      var q := OptionsSound(c, fields[1..], v6, o);
      p := [Id(a)] + q;
      assert p[1..] == q;
      OffersBelow(n, a, c, p, fields, v6, o);
    }
  }

  lemma {:induction false} OptionsComplete(n: Node, fields: seq<string>, v6: V6Parser, o: string, p: seq<string>)
    requires WellFormed(n) && fields != [] && OptionsOf(n, fields, v6).Ok? && Completes(n, p, fields, v6, o)
    ensures o in OptionsOf(n, fields, v6).value
    decreases |fields|
  {
    OptionsOrigin(n, |Alts(n)|, fields, v6, o);
    var k := FindIndex(Alts(n), p[0]);
    var a := Alts(n)[k];
    LookupWellFormed(n, p[0]);
    if |fields| == 1 {
      assert p == [Id(a)];
      LastOffers(n, a, fields[0], o);
    } else {
      var c := Next(a).value;
      OffersBelow(n, a, c, p, fields, v6, o);
      assert OptionsOfAtom(a, fields, v6).Ok?;
      OptionsComplete(c, fields[1..], v6, o, p[1..]);
    }
    assert o in OptionsOfAtom(Alts(n)[k], fields, v6).value;
  }

  /** The options, each listed once, are exactly what the ends of the paths offer that accept
      all fields but the last. */
  lemma OptionsExact(n: Node, fields: seq<string>, v6: V6Parser, o: string)
    requires WellFormed(n) && fields != [] && OptionsOf(n, fields, v6).Ok?
    ensures Distinct(OptionsOf(n, fields, v6).value)
    ensures o in OptionsOf(n, fields, v6).value <==> exists p :: Completes(n, p, fields, v6, o)
  {
    OptionsOrigin(n, |Alts(n)|, fields, v6, o);
    if o in OptionsOf(n, fields, v6).value {
      var p := OptionsSound(n, fields, v6, o);
    }
    forall p | Completes(n, p, fields, v6, o) ensures o in OptionsOf(n, fields, v6).value {
      OptionsComplete(n, fields, v6, o, p);
    }
  }

  // ---------------------------------------------------------------- failing completion

  lemma {:induction false} FailOrigin(n: Node, k: nat, fields: seq<string>, v6: V6Parser)
    requires fields != [] && k <= |Alts(n)|
    ensures OptionsOfAlts(n, k, fields, v6).Err? <==>
      exists i :: 0 <= i < k && OptionsOfAtom(Alts(n)[i], fields, v6).Err?
  {
    hide OptionsOfAtom, AddOptions;
    if k > 0 {
      FailOrigin(n, k - 1, fields, v6);
    }
  }

  lemma LastFails(n: Node, a: Node, p: seq<string>, fields: seq<string>, v6: V6Parser)
    requires WellFormedAtom(a) && Lookup(Alts(n), Id(a)) == Some(a)
    requires |fields| == 1 && p == [Id(a)]
    ensures OptionsOfAtom(a, fields, v6).Err? <==> Fails(n, p, fields, v6)
  {
    LiteralId(a);
    assert AtPath(n, p) == Some(AttrsOf(a));
  }

  lemma {:induction false} FailSound(n: Node, fields: seq<string>, v6: V6Parser) returns (p: seq<string>)
    requires WellFormed(n) && fields != [] && OptionsOf(n, fields, v6).Err?
    ensures Fails(n, p, fields, v6)
    decreases |fields|
  {
    FailOrigin(n, |Alts(n)|, fields, v6);
    var k :| 0 <= k < |Alts(n)| && OptionsOfAtom(Alts(n)[k], fields, v6).Err?;
    var a := Alts(n)[k];
    AltsWellFormed(n);
    LookupIndex(Alts(n), k);
    LookupWellFormed(n, Id(a));
    if |fields| == 1 {
      p := [Id(a)];
      LastFails(n, a, p, fields, v6);
    } else {
      var c := Next(a).value;
      var q := FailSound(c, fields[1..], v6);
      p := [Id(a)] + q;
      assert p[1..] == q;
      FailsBelow(n, a, c, p, fields, v6);
    }
  }

  lemma {:induction false} FailComplete(n: Node, fields: seq<string>, v6: V6Parser, p: seq<string>)
    requires WellFormed(n) && fields != [] && Fails(n, p, fields, v6)
    ensures OptionsOf(n, fields, v6).Err?
    decreases |fields|
  {
    FailOrigin(n, |Alts(n)|, fields, v6);
    var k := FindIndex(Alts(n), p[0]);
    var a := Alts(n)[k];
    LookupWellFormed(n, p[0]);
    if |fields| == 1 {
      LastFails(n, a, p, fields, v6);
    } else {
      FailsBelow(n, a, Next(a).value, p, fields, v6);
      FailComplete(Next(a).value, fields[1..], v6, p[1..]);
    }
  }

  /** Completion fails exactly when some autocomplete function that the line leads to fails. */
  lemma CompletionFailsIff(n: Node, fields: seq<string>, v6: V6Parser)
    requires WellFormed(n) && fields != []
    ensures OptionsOf(n, fields, v6).Err? <==> exists p :: Fails(n, p, fields, v6)
  {
    if OptionsOf(n, fields, v6).Err? {
      var p := FailSound(n, fields, v6);
    }
    forall p | Fails(n, p, fields, v6) ensures OptionsOf(n, fields, v6).Err? {
      FailComplete(n, fields, v6, p);
    }
  }

  // ---------------------------------------------------------------- the loops

  method AppendOptions(options: seq<string>, opts: seq<string>) returns (r: seq<string>)
    ensures r == AddOptions(options, opts)
  {
    r := options;
    for i := 0 to |opts|
      invariant r == AddOptions(options, opts[..i])
    {
      assert opts[..i + 1][..i] == opts[..i];
      if opts[i] !in r {
        r := r + [opts[i]];
      }
    }
    assert opts[..|opts|] == opts;
  }

  /** OptionsFromAutocompleteFunc. */
  method OptionsFromAutocompleteFunc(n: Node, prefix: string) returns (r: Result<seq<string>>)
    ensures r == match n.completer
      case None => Ok([])
      case Some(Failing) => Err
      case Some(Options(os)) => Ok(WithPrefix(os, prefix))
  {
    if n.completer.None? {
      return Ok([]);
    }
    if n.completer.value.Failing? {
      return Err;
    }
    var options := n.completer.value.options;
    var filtered: seq<string> := [];
    for i := 0 to |options|
      invariant filtered == WithPrefix(options[..i], prefix)
    {
      assert options[..i + 1][..i] == options[..i];
      if HasPrefix(options[i], prefix) {
        filtered := filtered + [options[i]];
      }
    }
    assert options[..|options|] == options;
    r := Ok(filtered);
  }

  method GetAutocompleteOptionsFromTokens(n: Node, fields: seq<string>, v6: V6Parser) returns (r: Result<seq<string>>)
    requires WellFormed(n) && fields != []
    ensures r == OptionsOf(n, fields, v6)
    decreases |fields|, n
  {
    var options: seq<string> := [];
    if n.t.Choice? {
      assert WellFormedAlts(n.children);
      for i := 0 to |n.children|
        invariant OptionsOfAlts(n, i, fields, v6) == Ok(options)
      {
        assert WellFormedAtom(n.children[i]);
        var opts := GetAutocompleteOptionsFromTokens(n.children[i], fields, v6);
        SingleOptions(n.children[i], fields, v6);
        if opts.Err? {
          ErrSpreads(n, i + 1, |n.children|, fields, v6);
          return Err;
        }
        options := AppendOptions(options, opts.value);
      }
      return Ok(options);
    }
    SingleOptions(n, fields, v6);
    if |fields| == 1 {
      if n.t.Literal? {
        if HasPrefix(n.value, fields[0]) {
          options := [n.value];
        }
      } else if n.completer.Some? {
        var opts := OptionsFromAutocompleteFunc(n, fields[0]);
        if opts.Err? {
          return Err;
        }
        options := AppendOptions([], opts.value);
      }
      return Ok(options);
    }
    if AtomArgs(n, fields[0], v6).None? || |n.children| == 0 {
      return Ok([]);
    }
    var opts := GetAutocompleteOptionsFromTokens(n.children[0], fields[1..], v6);
    if opts.Err? {
      return Err;
    }
    var c := n.children[0];
    OptionsOrigin(c, |Alts(c)|, fields[1..], v6, "");
    AddOptionsToNone(opts.value);
    options := AppendOptions(options, opts.value);
    r := Ok(options);
  }

  lemma {:induction false} ErrSpreads(n: Node, i: nat, k: nat, fields: seq<string>, v6: V6Parser)
    requires fields != [] && i <= k <= |Alts(n)| && OptionsOfAlts(n, i, fields, v6).Err?
    ensures OptionsOfAlts(n, k, fields, v6).Err?
  {
    if i < k {
      ErrSpreads(n, i, k - 1, fields, v6);
    }
  }

  lemma {:induction false} AddOptionsToNone(os: seq<string>)
    requires Distinct(os)
    ensures AddOptions([], os) == os
  {
    if os != [] {
      var init, last := os[..|os| - 1], os[|os| - 1];
      assert os == init + [last];
      AddOptionsToNone(init);
    }
  }

  lemma SingleOptions(a: Node, fields: seq<string>, v6: V6Parser)
    requires WellFormedAtom(a) && fields != []
    ensures OptionsOf(a, fields, v6) == OptionsOfAtom(a, fields, v6)
  {
    assert Alts(a) == [a];
    assert OptionsOfAlts(a, 0, fields, v6) == Ok([]);
    var r := OptionsOfAtom(a, fields, v6);
    if r.Ok? {
      if |fields| > 1 && AtomArgs(a, fields[0], v6).Some? && Next(a).Some? {
        var c := Next(a).value;
        assert r == OptionsOfAlts(c, |Alts(c)|, fields[1..], v6);
        OptionsOrigin(c, |Alts(c)|, fields[1..], v6, "");
      } else if |fields| == 1 && !a.t.Literal? && a.completer.Some? {
        AddOptionsMember([], WithPrefix(a.completer.value.options, fields[0]), "");
      }
      assert Distinct(r.value);
      AddOptionsToNone(r.value);
    }
  }
}
