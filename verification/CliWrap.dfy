// Laying out words in columns, filled from top to bottom, within the width of the terminal.

module CliWrap {
  import opened Prelude

  ghost predicate Longest(words: seq<string>, k: nat) {
    && (forall w :: w in words ==> |w| <= k)
    && (k == 0 || exists w :: w in words && |w| == k)
  }

  method LongestLen(words: seq<string>) returns (k: nat)
    ensures Longest(words, k)
  {
    k := 0;
    for i := 0 to |words|
      invariant Longest(words[..i], k)
    {
      assert words[..i + 1] == words[..i] + [words[i]];
      if |words[i]| > k {
        k := |words[i]|;
      }
    }
    assert words[..|words|] == words;
  }

  // ---------------------------------------------------------------- the grid

  /** Where column c starts, after the indentation. */
  function Start(c: nat, cell: nat): nat {
    c * cell
  }

  /** The index of the word in line l, column c. */
  function Index(l: nat, c: nat, rows: nat): nat {
    l + c * rows
  }

  lemma NextColumn(c: nat, size: nat)
    ensures Start(0, size) == 0 && Start(c + 1, size) == Start(c, size) + size
  {
  }

  lemma NextIndex(l: nat, c: nat, rows: nat)
    ensures Index(l, 0, rows) == l && Index(l, c + 1, rows) == Index(l, c, rows) + rows
    ensures Index(l, c, rows) == l + Start(c, rows)
  {
  }

  /** Words in columns of this width. */
  datatype Layout = Layout(words: seq<string>, indent: nat, cell: nat, perRow: nat, rows: nat) {
    ghost predicate Fits() {
      forall w :: w in words ==> |w| + 2 <= cell
    }

    /** There is a word in line l, column c. */
    predicate Has(l: nat, c: nat) {
      c < perRow && Index(l, c, rows) < |words|
    }

    function Word(l: nat, c: nat): (w: string)
      requires Has(l, c)
      ensures w in words
    {
      words[Index(l, c, rows)]
    }
  }

  /** The text of column c of line l, which has a word there. */
  function Cell(a: Layout, l: nat, c: nat): (s: string)
    requires a.Fits() && a.Has(l, c)
    ensures |s| <= a.cell && (c < a.perRow - 1 ==> |s| == a.cell)
  {
    var w := a.Word(l, c);
    if c == a.perRow - 1 then w else w + Blanks(a.cell - |w|)
  }

  /** Line l from column c on: each word is padded to the width of its column, except in the
      last column, and nothing comes after the last word. */
  function RowFrom(a: Layout, l: nat, c: nat): string
    requires a.Fits()
    decreases a.perRow - c
  {
    if a.Has(l, c) then Cell(a, l, c) + RowFrom(a, l, c + 1) else ""
  }

  ghost predicate Grid(a: Layout, lines: seq<string>)
    requires a.Fits()
  {
    |lines| == a.rows && forall l :: 0 <= l < a.rows ==> lines[l] == Blanks(a.indent) + RowFrom(a, l, 0)
  }

  /** No line is longer than its columns. */
  lemma {:induction false} RowLength(a: Layout, l: nat, c: nat)
    requires a.Fits() && c <= a.perRow
    ensures |RowFrom(a, l, c)| + Start(c, a.cell) <= Start(a.perRow, a.cell)
    decreases a.perRow - c
  {
    hide Start, Index, Cell;
    if c < a.perRow {
      NextColumn(c, a.cell);
      RowLength(a, l, c + 1);
    }
  }

  /** Where there is no word, the line has ended. */
  lemma {:induction false} RowEnds(a: Layout, l: nat, from: nat, c: nat)
    requires a.Fits() && from <= c && !a.Has(l, c)
    ensures |RowFrom(a, l, from)| + Start(from, a.cell) <= Start(c, a.cell)
    decreases c - from
  {
    hide Start, Index, Cell;
    if from < c {
      NextColumn(from, a.cell);
      RowEnds(a, l, from + 1, c);
    }
  }

  /** Where there is a word, the line goes on with it. */
  lemma {:induction false} RowAt(a: Layout, l: nat, c: nat)
    requires a.Fits() && a.Has(l, c)
    ensures var line, at := RowFrom(a, l, 0), Start(c, a.cell); at <= |line| && line[at..] == RowFrom(a, l, c)
    decreases c
  {
    hide Start, Index, Cell;
    NextColumn(0, a.cell);
    if c > 0 {
      NextIndex(l, c - 1, a.rows);
      NextColumn(c - 1, a.cell);
      RowAt(a, l, c - 1);
      DropTwice(RowFrom(a, l, 0), Start(c - 1, a.cell), a.cell);
    }
  }

  lemma DropTwice(s: string, a: nat, b: nat)
    requires a + b <= |s|
    ensures s[a..][b..] == s[a + b..]
  {
  }

  // ---------------------------------------------------------------- reading the grid

  function Trim(s: string): string {
    if s != "" && s[|s| - 1] == ' ' then Trim(s[..|s| - 1]) else s
  }

  function TrimAll(ws: seq<string>): (r: seq<string>)
    ensures |r| == |ws| && forall i :: 0 <= i < |ws| ==> r[i] == Trim(ws[i])
  {
    seq(|ws|, i requires 0 <= i < |ws| => Trim(ws[i]))
  }

  lemma {:induction false} TrimPadded(w: string, k: nat)
    ensures Trim(w + Blanks(k)) == Trim(w)
    decreases k
  {
    if k == 0 {
      assert w + Blanks(k) == w;
    } else {
      assert (w + Blanks(k))[..|w| + k - 1] == w + Blanks(k - 1);
      TrimPadded(w, k - 1);
    }
  }

  /** The text of one cell, which may end before the cell does. */
  function CellText(line: string, at: nat, cell: nat): string
    requires at <= |line|
  {
    line[at..if at + cell <= |line| then at + cell else |line|]
  }

  /** What stands in one column of the first l lines. */
  function ReadColumn(lines: seq<string>, l: nat, at: nat, cell: nat): seq<string>
    requires l <= |lines|
  {
    if l == 0 then []
    else
      var above := ReadColumn(lines, l - 1, at, cell);
      if |lines[l - 1]| > at then above + [Trim(CellText(lines[l - 1], at, cell))] else above
  }

  /** What stands in the first c columns, read down one column after the other. */
  function ReadDown(lines: seq<string>, indent: nat, cell: nat, c: nat): seq<string> {
    if c == 0 then []
    else ReadDown(lines, indent, cell, c - 1) + ReadColumn(lines, |lines|, indent + Start(c - 1, cell), cell)
  }

  ghost predicate NoEmptyWord(words: seq<string>) {
    forall i :: 0 <= i < |words| ==> words[i] != ""
  }

  lemma CellHasWord(a: Layout, lines: seq<string>, l: nat, c: nat)
    requires a.Fits() && Grid(a, lines) && NoEmptyWord(a.words) && l < a.rows && a.Has(l, c)
    ensures var at := a.indent + Start(c, a.cell);
      |lines[l]| > at && Trim(CellText(lines[l], at, a.cell)) == Trim(a.Word(l, c))
  {
    hide Start, Index, Trim;
    var at, w, rest := Start(c, a.cell), a.Word(l, c), RowFrom(a, l, c + 1);
    RowAt(a, l, c);
    DropTwice(lines[l], a.indent, at);
    assert lines[l][a.indent..] == RowFrom(a, l, 0);
    assert lines[l][a.indent + at..] == Cell(a, l, c) + rest;
    assert c == a.perRow - 1 ==> rest == "";
    CellOf(lines[l], a.indent + at, a.cell, Cell(a, l, c), rest);
    CellTrimmed(a, l, c);
  }

  lemma CellOf(line: string, at: nat, cell: nat, text: string, rest: string)
    requires at <= |line| && line[at..] == text + rest && |text| <= cell && (rest != "" ==> |text| == cell)
    ensures CellText(line, at, cell) == text
  {
    assert CellText(line, at, cell) == line[at..][..|text|];
  }

  lemma CellTrimmed(a: Layout, l: nat, c: nat)
    requires a.Fits() && a.Has(l, c)
    ensures Trim(Cell(a, l, c)) == Trim(a.Word(l, c))
  {
    var w := a.Word(l, c);
    TrimPadded(w, a.cell - |w|);
  }

  lemma CellIsAbsent(a: Layout, lines: seq<string>, l: nat, c: nat)
    requires a.Fits() && Grid(a, lines) && l < a.rows && !a.Has(l, c)
    ensures |lines[l]| <= a.indent + Start(c, a.cell)
  {
    hide Start, Index;
    NextColumn(0, a.cell);
    RowEnds(a, l, 0, c);
  }

  /** The first k words, or all. */
  function Take(words: seq<string>, k: nat): seq<string> {
    if k <= |words| then words[..k] else words
  }

  lemma LineCount(a: Layout, lines: seq<string>)
    requires a.Fits() && Grid(a, lines)
    ensures |lines| == a.rows
  {
  }

  lemma TakeMore(words: seq<string>, k: nat)
    ensures TrimAll(Take(words, k + 1)) == TrimAll(Take(words, k)) + (if k < |words| then [Trim(words[k])] else [])
  {
  }

  /** A column holds its share of the words. */
  lemma {:induction false} ColumnRead(a: Layout, lines: seq<string>, c: nat, l: nat)
    requires a.Fits() && Grid(a, lines) && NoEmptyWord(a.words) && c < a.perRow && l <= a.rows == |lines|
    ensures TrimAll(Take(a.words, Start(c, a.rows))) + ReadColumn(lines, l, a.indent + Start(c, a.cell), a.cell) ==
      TrimAll(Take(a.words, Start(c, a.rows) + l))
    decreases l
  {
    hide Start, Index, CellText, Trim, Grid, Take, RowFrom, NoEmptyWord;
    if l > 0 {
      ColumnRead(a, lines, c, l - 1);
      NextIndex(l - 1, c, a.rows);
      TakeMore(a.words, Start(c, a.rows) + l - 1);
      if a.Has(l - 1, c) {
        CellHasWord(a, lines, l - 1, c);
      } else {
        CellIsAbsent(a, lines, l - 1, c);
      }
    }
  }

  lemma {:induction false} ColumnsRead(a: Layout, lines: seq<string>, c: nat)
    requires a.Fits() && Grid(a, lines) && NoEmptyWord(a.words) && c <= a.perRow
    ensures ReadDown(lines, a.indent, a.cell, c) == TrimAll(Take(a.words, Start(c, a.rows)))
    decreases c
  {
    hide Start, Index, Grid, Take, ReadColumn;
    LineCount(a, lines);
    NextColumn(0, a.rows);
    if c > 0 {
      NextColumn(c - 1, a.rows);
      ColumnsRead(a, lines, c - 1);
      ColumnRead(a, lines, c - 1, a.rows);
    } else {
      TakeNone(a.words);
    }
  }

  lemma TakeNone(words: seq<string>)
    ensures TrimAll(Take(words, 0)) == []
  {
  }

  /** Reading a grid down its columns gives the words back, in their order and each once,
      exactly when none of them ends in a blank. */
  lemma ReadBack(a: Layout, lines: seq<string>)
    requires a.Fits() && Grid(a, lines) && NoEmptyWord(a.words) && |a.words| <= Start(a.perRow, a.rows)
    ensures ReadDown(lines, a.indent, a.cell, a.perRow) == a.words <==>
      forall i :: 0 <= i < |a.words| ==> a.words[i][|a.words[i]| - 1] != ' '
  {
    hide Grid, ReadDown, Start;
    ColumnsRead(a, lines, a.perRow);
    TakeAll(a.words, Start(a.perRow, a.rows));
    TrimmedWords(a.words);
  }

  lemma TakeAll(words: seq<string>, k: nat)
    requires |words| <= k
    ensures Take(words, k) == words
  {
  }

  lemma TrimmedWords(words: seq<string>)
    requires NoEmptyWord(words)
    ensures TrimAll(words) == words <==> forall i :: 0 <= i < |words| ==> words[i][|words[i]| - 1] != ' '
  {
    forall i | 0 <= i < |words| ensures Trim(words[i]) == words[i] <==> words[i][|words[i]| - 1] != ' ' {
      TrimShortens(words[i]);
    }
    hide Trim;
    assert TrimAll(words) == words <==> forall i :: 0 <= i < |words| ==> TrimAll(words)[i] == words[i];
  }

  lemma {:induction false} TrimShortens(s: string)
    ensures |Trim(s)| <= |s|
    ensures s != "" ==> (Trim(s) == s <==> s[|s| - 1] != ' ')
  {
    if s != "" && s[|s| - 1] == ' ' {
      TrimShortens(s[..|s| - 1]);
    }
  }

  // ---------------------------------------------------------------- the loops

  /** The number of lines, rounded up as the original rounds it, also for negative perRow. */
  function Rows(n: nat, perRow: int): int
    requires perRow != 0
  {
    GoDiv(n, perRow) + if GoMod(n, perRow) != 0 then 1 else 0
  }

  /** With room for at least one column, it is the least number of lines that are enough. */
  lemma LeastRows(n: nat, perRow: nat, r: nat)
    requires perRow > 0
    ensures n <= perRow * r <==> Rows(n, perRow) <= r
  {
    hide Rows;
    RowsAre(n, perRow);
    var q, m := n / perRow, n % perRow;
    assert n == perRow * q + m;
    if r < q {
      Times(perRow, r, q - 1);
    } else if r > q {
      Times(perRow, q + 1, r);
    }
  }

  lemma RowsAre(n: nat, perRow: nat)
    requires perRow > 0
    ensures Rows(n, perRow) == n / perRow + if n % perRow != 0 then 1 else 0
  {
  }

  lemma Times(p: nat, a: nat, b: nat)
    requires a <= b
    ensures p * a <= p * b
    ensures p * (a + 1) == p * a + p && p * (b + 1) == p * b + p
  {
    assert p * b == p * a + p * (b - a);
  }

  lemma EnoughRows(n: nat, perRow: nat)
    requires perRow > 0
    ensures Rows(n, perRow) >= 0 && n <= Start(perRow, Rows(n, perRow))
  {
    var q := n / perRow;
    assert n == perRow * q + n % perRow;
    assert perRow * (q + 1) == perRow * q + perRow;
  }

  lemma Quotient(n: nat, p: int)
    requires p > 0
    ensures n < p ==> n / p == 0 && n % p == n
    ensures p <= n < 2 * p ==> n / p == 1 && n % p == n - p
    ensures n >= 2 * p ==> n / p >= 2
  {
    var q, r := n / p, n % p;
    assert n == p * q + r;
    if q >= 2 {
      assert p * q == p * (q - 2) + 2 * p;
    } else if q == 1 {
      assert p * q == p;
    }
  }

  /** With room for no column the original asks for fewer than zero lines, or makes one. */
  lemma NegativeRows(n: nat, p: int)
    requires p > 0
    ensures Rows(n, -p) < 0 <==> n == p || n >= 2 * p
    ensures Rows(n, -p) >= 0 ==> Rows(n, -p) == if 0 < n < p then 1 else 0
  {
    Quotient(n, p);
    assert GoDiv(n, -p) == -(n / p) && GoMod(n, -p) == n % p;
  }

  /** wrap: size is the width of the terminal, if it is known. None is what making a list of
      negative length ends in. */
  method Wrap(size: Option<int>, indent: nat, words: seq<string>) returns (r: Option<seq<string>>, ghost cell: nat)
    ensures size.None? ==> r == Some(words)
    ensures size.Some? ==> cell >= 2 && forall w :: w in words ==> |w| + 2 <= cell
    ensures size.Some? && cell > 2 ==> exists w :: w in words && |w| + 2 == cell
    ensures size.Some? ==> var perRow := GoDiv(size.value - indent, cell);
      && (perRow == 0 ==> r == Some(words))
      && (perRow > 0 ==> r.Some? && InColumns(words, indent, cell, perRow, size.value, r.value))
      && (perRow < 0 ==> (r.None? <==> |words| == -perRow || |words| >= -2 * perRow))
      && (perRow < 0 && r.Some? ==> r.value == if 0 < |words| < -perRow then [Blanks(indent)] else [])
  {
    hide InColumns, GoDiv, Rows;
    cell := 0;
    if size.None? {
      return Some(words), cell;
    }
    var longestLen := LongestLen(words);
    cell := longestLen + 2;
    var perRow := GoDiv(size.value - indent, longestLen + 2);
    if perRow == 0 {
      return Some(words), cell;
    }
    var rows := Rows(|words|, perRow);
    if perRow < 0 {
      NegativeRows(|words|, -perRow);
    } else {
      EnoughRows(|words|, perRow);
    }
    if rows < 0 {
      return None, cell;
    }
    var lines := WrapLines(indent, words, longestLen, perRow, rows);
    if perRow > 0 {
      LinesInColumns(words, indent, cell, perRow, size.value, lines);
    }
    r := Some(lines);
  }

  /** The lines hold the words in columns that can be read back, and none is too long. */
  ghost predicate InColumns(words: seq<string>, indent: nat, cell: nat, perRow: nat, width: int, lines: seq<string>)
    requires perRow > 0
  {
    && Rows(|words|, perRow) >= 0
    && var a := Layout(words, indent, cell, perRow, Rows(|words|, perRow));
       && a.Fits() && |words| <= Start(perRow, a.rows) && Grid(a, lines)
       && forall l :: 0 <= l < |lines| ==> |lines[l]| <= width
  }

  lemma LinesInColumns(words: seq<string>, indent: nat, cell: nat, perRow: nat, width: int, lines: seq<string>)
    requires cell > 0 && perRow == GoDiv(width - indent, cell) > 0 && Rows(|words|, perRow) >= 0
    requires var a := Layout(words, indent, cell, perRow, Rows(|words|, perRow)); a.Fits() && Grid(a, lines)
    ensures InColumns(words, indent, cell, perRow, width, lines)
  {
    var a := Layout(words, indent, cell, perRow, Rows(|words|, perRow));
    EnoughRows(|words|, perRow);
    Truncated(width - indent, cell, perRow);
    NextColumn(0, cell);
    forall l | 0 <= l < |lines| ensures |lines[l]| <= width {
      RowLength(a, l, 0);
    }
  }

  lemma Truncated(width: int, cell: nat, perRow: nat)
    requires cell > 0 && perRow == GoDiv(width, cell) > 0
    ensures Start(perRow, cell) <= width
  {
  }

  method WrapLines(indent: nat, words: seq<string>, longestLen: nat, perRow: int, rows: nat)
    returns (lines: seq<string>)
    requires forall w :: w in words ==> |w| <= longestLen
    ensures perRow >= 0 ==>
      var a := Layout(words, indent, longestLen + 2, perRow, rows); a.Fits() && Grid(a, lines)
    ensures perRow < 0 ==> |lines| == rows && forall l :: 0 <= l < rows ==> lines[l] == Blanks(indent)
  {
    hide RowFrom;
    lines := [];
    for i := 0 to rows
      invariant |lines| == i
      invariant perRow >= 0 ==> forall l :: 0 <= l < i ==>
        lines[l] == Blanks(indent) + RowFrom(Layout(words, indent, longestLen + 2, perRow, rows), l, 0)
      invariant perRow < 0 ==> forall l :: 0 <= l < i ==> lines[l] == Blanks(indent)
    {
      var line := WrapLine(i, words, indent, longestLen, perRow, rows);
      lines := lines + [line];
    }
  }

  method WrapLine(i: nat, words: seq<string>, indent: nat, longestLen: nat, perRow: int, rows: nat)
    returns (line: string)
    requires i < rows && forall w :: w in words ==> |w| <= longestLen
    ensures perRow >= 0 ==> line == Blanks(indent) + RowFrom(Layout(words, indent, longestLen + 2, perRow, rows), i, 0)
    ensures perRow < 0 ==> line == Blanks(indent)
  {
    hide RowFrom;
    line := Blanks(indent);
    if perRow < 0 {
      return;
    }
    ghost var a := Layout(words, indent, longestLen + 2, perRow, rows);
    var j := 0;
    while j < perRow
      invariant j <= perRow
      invariant line + RowFrom(a, i, j) == Blanks(indent) + RowFrom(a, i, 0)
    {
      var index := i + j * rows;
      assert index == Index(i, j, rows);
      if index >= |words| {
        break;
      }
      ghost var before := line;
      var w := words[index];
      assert w in words && w == a.Word(i, j);
      line := line + w;
      if j != perRow - 1 {
        line := line + Blanks(longestLen - |w| + 2);
        Associative(before, w, Blanks(longestLen - |w| + 2));
      }
      RowStep(a, i, j, before, line);
      j := j + 1;
    }
    RowOver(a, i, j, line);
  }

  lemma RowStep(a: Layout, i: nat, j: nat, before: string, line: string)
    requires a.Fits() && a.Has(i, j) && line == before + Cell(a, i, j)
    ensures line + RowFrom(a, i, j + 1) == before + RowFrom(a, i, j)
  {
    hide Cell;
    Associative(before, Cell(a, i, j), RowFrom(a, i, j + 1));
  }

  lemma Associative(a: string, b: string, c: string)
    ensures (a + b) + c == a + (b + c)
  {
  }

  lemma RowOver(a: Layout, i: nat, j: nat, line: string)
    requires a.Fits() && !a.Has(i, j)
    ensures line + RowFrom(a, i, j) == line
  {
  }
}
