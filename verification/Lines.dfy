// A command line as fields.

module Lines {
  predicate IsSpace(c: char) {
    c == ' ' || '\t' <= c <= '\r'
  }

  predicate EndsInSpace(s: string) {
    s == "" || IsSpace(s[|s| - 1])
  }

  /** strings.Fields: the maximal runs of characters that are not space. */
  function Fields(s: string): (fs: seq<string>)
    ensures !EndsInSpace(s) ==> fs != []
  {
    if s == "" then []
    else
      var init, c := s[..|s| - 1], s[|s| - 1];
      var fs := Fields(init);
      if IsSpace(c) then fs
      else if EndsInSpace(init) then fs + [[c]]
      else fs[..|fs| - 1] + [fs[|fs| - 1] + [c]]
  }

  /** The fields of the line so far, the last one empty if a new one is about to start. */
  function AutocompleteFields(s: string): (fs: seq<string>)
    ensures fs != []
  {
    if EndsInSpace(s) then Fields(s) + [""] else Fields(s)
  }

  ghost predicate SpaceFree(s: string) {
    forall i :: 0 <= i < |s| ==> !IsSpace(s[i])
  }

  function GrowLast(fs: seq<string>, ext: string): seq<string>
    requires fs != []
  {
    fs[..|fs| - 1] + [fs[|fs| - 1] + ext]
  }

  /** Text without spaces typed at the end of a line makes the last field grow. */
  lemma {:induction false} TypingGrowsLast(s: string, ext: string)
    requires SpaceFree(ext)
    ensures AutocompleteFields(s + ext) == GrowLast(AutocompleteFields(s), ext)
    decreases |ext|
  {
    var fs := AutocompleteFields(s);
    if ext == "" {
      assert s + ext == s && fs[|fs| - 1] + ext == fs[|fs| - 1];
      assert fs == fs[..|fs| - 1] + [fs[|fs| - 1]];
    } else {
      var init, c := ext[..|ext| - 1], ext[|ext| - 1];
      TypingGrowsLast(s, init);
      var t := s + init;
      assert s + ext == t + [c] && (t + [c])[..|t|] == t;
      assert init + [c] == ext;
      TypingOne(t, c);
      GrowTwice(fs, init, [c]);
    }
  }

  lemma GrowTwice(fs: seq<string>, a: string, b: string)
    requires fs != []
    ensures GrowLast(GrowLast(fs, a), b) == GrowLast(fs, a + b)
  {
    var k := |fs| - 1;
    assert fs[k] + a + b == fs[k] + (a + b);
    assert GrowLast(fs, a)[..k] == fs[..k];
  }

  lemma TypingOne(t: string, c: char)
    requires !IsSpace(c)
    ensures AutocompleteFields(t + [c]) == GrowLast(AutocompleteFields(t), [c])
  {
    assert (t + [c])[..|t|] == t;
    assert [""][0] + [c] == [c];
    if EndsInSpace(t) {
      assert (Fields(t) + [""])[..|Fields(t)|] == Fields(t);
    }
  }

  /** The last field so far is how the line ends. */
  lemma {:induction false} LastFieldIsSuffix(s: string)
    ensures var fs := AutocompleteFields(s);
      var last := fs[|fs| - 1];
      |last| <= |s| && s[|s| - |last|..] == last && SpaceFree(last)
  {
    if EndsInSpace(s) {
      assert s[|s|..] == "";
    } else {
      var init, c := s[..|s| - 1], s[|s| - 1];
      assert init + [c] == s;
      LastFieldIsSuffix(init);
      TypingOne(init, c);
      var fs := AutocompleteFields(init);
      var last := fs[|fs| - 1];
      assert s[|s| - |last| - 1..] == init[|init| - |last|..] + [c];
    }
  }

  // ---------------------------------------------------------------- what the fields are

  /** The characters that separate fields. */
  lemma SpacesAre(c: char)
    ensures IsSpace(c) <==> c in [' ', '\t', '\n', '\U{00000B}', '\U{00000C}', '\r']
  {
    assert '\t' as int == 9 && '\r' as int == 13;
  }

  /** A word without spaces is one field. */
  lemma WordIsField(w: string)
    requires w != "" && SpaceFree(w)
    ensures Fields(w) == [w]
  {
    TypingGrowsLast("", w);
    assert "" + w == w;
    assert AutocompleteFields("") == [""];
  }

  /** A space separates what is before it from what is after it. */
  lemma {:induction false} SpaceSeparates(a: string, c: char, b: string)
    requires IsSpace(c)
    ensures Fields(a + [c] + b) == Fields(a) + Fields(b)
    decreases |b|
  {
    if b == "" {
      assert a + [c] + b == a + [c] && (a + [c])[..|a|] == a;
      assert Fields(a) + [] == Fields(a);
    } else {
      var init, d := b[..|b| - 1], b[|b| - 1];
      var all, line := a + [c] + b, a + [c] + init;
      assert all[..|all| - 1] == line && all[|all| - 1] == d;
      SpaceSeparates(a, c, init);
      assert EndsInSpace(line) <==> EndsInSpace(init) by {
        assert init == "" ==> line[|line| - 1] == c;
        assert init != "" ==> line[|line| - 1] == init[|init| - 1];
      }
      AppendOne(Fields(a), Fields(init), [d]);
    }
  }

  lemma AppendOne(xs: seq<string>, ys: seq<string>, w: string)
    ensures xs + ys + [w] == xs + (ys + [w])
    ensures ys != [] ==> GrowLast(xs + ys, w) == xs + GrowLast(ys, w)
  {
  }

  /** The fields of a line that is not finished: those before its last space, and what follows,
      which may be empty. */
  lemma UnfinishedFields(a: string, c: char, w: string)
    requires IsSpace(c) && SpaceFree(w)
    ensures AutocompleteFields(w) == [w]
    ensures AutocompleteFields(a + [c] + w) == Fields(a) + [w]
  {
    SpaceSeparates(a, c, w);
    var line := a + [c] + w;
    if w == "" {
      assert line == a + [c] && line[|line| - 1] == c;
    } else {
      WordIsField(w);
      assert line[|line| - 1] == w[|w| - 1];
    }
  }
}
