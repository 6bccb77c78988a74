/** The text terminal as a grid of cells, and the unbounded roll of paper of which it shows the end. */
module Terminal {
  import opened Arith
  import opened Bytes

  /** A character cell: the glyph that it shows and the colour of the glyph. */
  datatype Cell = Cell(glyph: nat, fg: nat)

  /** A character sent to the terminal while the text colour is `fg`. */
  datatype Key = Key(c: byte, fg: nat)

  datatype Grid = Grid(lines: seq<seq<Cell>>, row: nat, col: nat)
  {
    predicate Valid(rows: nat, cols: nat) {
      && row < |lines| == rows && col < cols
      && forall i :: 0 <= i < rows ==> |lines[i]| == cols
    }
  }

  const NEWLINE: byte := 10
  const BACKSPACE: byte := 8
  const SPACE: byte := 32
  const QUESTION: byte := 63

  /** The font has 128 glyphs; any other byte is shown as a question mark. */
  function GlyphOf(c: byte): (g: nat)
    ensures g < 128
  {
    if c >= 128 then QUESTION else c
  }

  function BlankLine(cols: nat): (l: seq<Cell>)
    ensures |l| == cols
  {
    seq(cols, _ => Cell(SPACE, 0))
  }

  function BlankLines(n: nat, cols: nat): (l: seq<seq<Cell>>)
    ensures |l| == n && forall i :: 0 <= i < n ==> l[i] == BlankLine(cols)
  {
    seq(n, _ => BlankLine(cols))
  }

  function WithCell(lines: seq<seq<Cell>>, row: nat, col: nat, cell: Cell): (r: seq<seq<Cell>>)
    requires row < |lines| && col < |lines[row]|
    ensures |r| == |lines|
  {
    lines[row := lines[row][col := cell]]
  }

  function Newline(g: Grid, rows: nat, cols: nat): (r: Grid)
    requires g.Valid(rows, cols)
    ensures r.Valid(rows, cols)
  {
    if g.row + 1 < rows then
      Grid(g.lines, g.row + 1, 0)
    else
      Grid(g.lines[1..] + [BlankLine(cols)], g.row, 0)
  }

  function Put(g: Grid, col: nat, cell: Cell, rows: nat, cols: nat): (r: Grid)
    requires g.Valid(rows, cols) && col < cols
    ensures r.Valid(rows, cols)
  {
    g.(lines := WithCell(g.lines, g.row, col, cell))
  }

  /** One character on the grid. */
  function Step(g: Grid, key: Key, rows: nat, cols: nat): (r: Grid)
    requires g.Valid(rows, cols)
    ensures r.Valid(rows, cols)
  {
    if key.c == NEWLINE then
      Newline(g, rows, cols)
    else if key.c == BACKSPACE then
      if g.col == 0 then g else Put(g, g.col - 1, Cell(SPACE, key.fg), rows, cols).(col := g.col - 1)
    else
      var g1 := Put(g, g.col, Cell(GlyphOf(key.c), key.fg), rows, cols);
      if g.col + 1 < cols then g1.(col := g.col + 1) else Newline(g1, rows, cols)
  }

  function Typed(g: Grid, keys: seq<Key>, rows: nat, cols: nat): (r: Grid)
    requires g.Valid(rows, cols)
    ensures r.Valid(rows, cols)
  {
    if keys == [] then g else Step(Typed(g, keys[..|keys| - 1], rows, cols), keys[|keys| - 1], rows, cols)
  }

  lemma TypedMore(g: Grid, keys: seq<Key>, key: Key, rows: nat, cols: nat)
    requires g.Valid(rows, cols)
    ensures Typed(g, keys + [key], rows, cols) == Step(Typed(g, keys, rows, cols), key, rows, cols)
  {
    assert (keys + [key])[..|keys|] == keys;
  }

  function Cleared(rows: nat, cols: nat): (g: Grid)
    requires rows > 0 && cols > 0
    ensures g.Valid(rows, cols)
  {
    Grid(BlankLines(rows, cols), 0, 0)
  }

  // ---- The roll of paper: nothing ever scrolls off it.

  datatype Roll = Roll(lines: seq<seq<Cell>>, col: nat)
  {
    predicate Valid(cols: nat) {
      && lines != [] && col < cols
      && forall i :: 0 <= i < |lines| ==> |lines[i]| == cols
    }
  }

  function Feed(p: Roll, cols: nat): (r: Roll)
    requires p.Valid(cols)
    ensures r.Valid(cols)
  {
    Roll(p.lines + [BlankLine(cols)], 0)
  }

  function Strike(p: Roll, col: nat, cell: Cell, cols: nat): (r: Roll)
    requires p.Valid(cols) && col < cols
    ensures r.Valid(cols)
  {
    p.(lines := WithCell(p.lines, |p.lines| - 1, col, cell))
  }

  function Print(p: Roll, key: Key, cols: nat): (r: Roll)
    requires p.Valid(cols)
    ensures r.Valid(cols)
  {
    if key.c == NEWLINE then
      Feed(p, cols)
    else if key.c == BACKSPACE then
      if p.col == 0 then p else Strike(p, p.col - 1, Cell(SPACE, key.fg), cols).(col := p.col - 1)
    else
      var p1 := Strike(p, p.col, Cell(GlyphOf(key.c), key.fg), cols);
      if p.col + 1 < cols then p1.(col := p.col + 1) else Feed(p1, cols)
  }

  function Printed(keys: seq<Key>, cols: nat): (r: Roll)
    requires cols > 0
    ensures r.Valid(cols)
  {
    if keys == [] then Roll([BlankLine(cols)], 0) else Print(Printed(keys[..|keys| - 1], cols), keys[|keys| - 1], cols)
  }

  /** What a window of `rows` lines shows of the roll: its end, or all of it over blank lines. */
  function Window(p: Roll, rows: nat, cols: nat): (g: Grid)
    requires p.Valid(cols) && rows > 0
    ensures g.Valid(rows, cols)
  {
    if |p.lines| <= rows then
      Grid(p.lines + BlankLines(rows - |p.lines|, cols), |p.lines| - 1, p.col)
    else
      Grid(p.lines[|p.lines| - rows..], rows - 1, p.col)
  }

  lemma FeedWindow(p: Roll, rows: nat, cols: nat)
    requires p.Valid(cols) && rows > 0
    ensures Window(Feed(p, cols), rows, cols) == Newline(Window(p, rows, cols), rows, cols)
  {
    var n := |p.lines|;
    var l, r := Window(Feed(p, cols), rows, cols).lines, Newline(Window(p, rows, cols), rows, cols).lines;
    forall i | 0 <= i < rows ensures l[i] == r[i] {
    }
    assert l == r;
  }

  lemma StrikeWindow(p: Roll, col: nat, cell: Cell, rows: nat, cols: nat)
    requires p.Valid(cols) && rows > 0 && col < cols
    ensures Window(Strike(p, col, cell, cols), rows, cols) == Put(Window(p, rows, cols), col, cell, rows, cols)
  {
    var n := |p.lines|;
    var l, r := Window(Strike(p, col, cell, cols), rows, cols).lines, Put(Window(p, rows, cols), col, cell, rows, cols).lines;
    forall i | 0 <= i < rows ensures l[i] == r[i] {
    }
    assert l == r;
  }

  lemma PrintWindow(p: Roll, key: Key, rows: nat, cols: nat)
    requires p.Valid(cols) && rows > 0
    ensures Window(Print(p, key, cols), rows, cols) == Step(Window(p, rows, cols), key, rows, cols)
  {
    hide Newline, Put, Feed, Strike, WithCell, BlankLine, BlankLines;
    if key.c == NEWLINE {
      FeedWindow(p, rows, cols);
    } else if key.c == BACKSPACE {
      if p.col != 0 {
        StrikeWindow(p, p.col - 1, Cell(SPACE, key.fg), rows, cols);
        assert Window(Strike(p, p.col - 1, Cell(SPACE, key.fg), cols).(col := p.col - 1), rows, cols)
            == Window(Strike(p, p.col - 1, Cell(SPACE, key.fg), cols), rows, cols).(col := p.col - 1);
      }
    } else {
      var cell := Cell(GlyphOf(key.c), key.fg);
      StrikeWindow(p, p.col, cell, rows, cols);
      FeedWindow(Strike(p, p.col, cell, cols), rows, cols);
    }
  }

  /** Whatever is typed on a cleared screen, the screen shows the end of the roll. */
  lemma {:induction false} ScreenIsWindow(keys: seq<Key>, rows: nat, cols: nat)
    requires rows > 0 && cols > 0
    ensures Typed(Cleared(rows, cols), keys, rows, cols) == Window(Printed(keys, cols), rows, cols)
  {
    if keys == [] {
      var l, r := Cleared(rows, cols).lines, Window(Printed(keys, cols), rows, cols).lines;
      assert forall i :: 0 <= i < rows ==> l[i] == r[i];
      assert l == r;
    } else {
      var before := keys[..|keys| - 1];
      ScreenIsWindow(before, rows, cols);
      PrintWindow(Printed(before, cols), keys[|keys| - 1], rows, cols);
    }
  }

  // ---- Wrapping.

  predicate Plain(key: Key) {
    key.c != NEWLINE && key.c != BACKSPACE
  }

  /** Plain text breaks after every `cols` characters: character `k` ends on line `k / cols`, column `k % cols`. */
  lemma {:induction false} Wraps(keys: seq<Key>, cols: nat, k: nat)
    requires cols > 0 && forall i :: 0 <= i < |keys| ==> Plain(keys[i])
    ensures |Printed(keys, cols).lines| == Fits(|keys|, cols) + 1 && Printed(keys, cols).col == Remainder(|keys|, cols)
    ensures k < |keys| ==> Fits(k, cols) < |Printed(keys, cols).lines|
    ensures k < |keys| ==>
      Printed(keys, cols).lines[Fits(k, cols)][Remainder(k, cols)]
        == Cell(if keys[k].c < 128 then keys[k].c else 63, keys[k].fg)
  {
    hide Fits, Remainder, BlankLine;
    var n := |keys|;
    if n == 0 {
      FitsSmall(0, cols);
    } else {
      var before := keys[..n - 1];
      Wraps(before, cols, k);
      NextFits(n - 1, cols);
      if k < n - 1 {
        FitsApart(k, n - 1, cols);
        assert before[k] == keys[k];
      }
    }
  }

  /** Backspace takes back a plain character that did not fill its line. */
  lemma BackspaceUndoes(g: Grid, key: Key, fg: nat, rows: nat, cols: nat)
    requires g.Valid(rows, cols) && Plain(key) && g.col + 1 < cols
    ensures Step(Step(g, key, rows, cols), Key(BACKSPACE, fg), rows, cols)
         == Put(g, g.col, Cell(SPACE, fg), rows, cols)
  {
    var line := g.lines[g.row];
    var cell := Cell(GlyphOf(key.c), key.fg);
    assert line[g.col := cell][g.col := Cell(SPACE, fg)] == line[g.col := Cell(SPACE, fg)];
    var l, r := Step(Step(g, key, rows, cols), Key(BACKSPACE, fg), rows, cols).lines,
                Put(g, g.col, Cell(SPACE, fg), rows, cols).lines;
    assert forall i :: 0 <= i < rows ==> l[i] == r[i];
    assert l == r;
  }

  // ---- Lines.

  /** A character only touches the last line, or adds lines behind it. */
  lemma PrintBehind(p: Roll, before: seq<seq<Cell>>, key: Key, cols: nat)
    requires p.Valid(cols) && forall i :: 0 <= i < |before| ==> |before[i]| == cols
    ensures Print(Roll(before + p.lines, p.col), key, cols)
         == Roll(before + Print(p, key, cols).lines, Print(p, key, cols).col)
  {
    hide BlankLine, GlyphOf;
    var q, n := Roll(before + p.lines, p.col), |p.lines| - 1;
    forall col, cell: Cell | 0 <= col < cols
      ensures Strike(q, col, cell, cols).lines == before + Strike(p, col, cell, cols).lines
    {
      assert q.lines[|q.lines| - 1] == p.lines[n];
      assert q.lines[|before| + n := p.lines[n][col := cell]] == before + p.lines[n := p.lines[n][col := cell]];
    }
  }

  /** A line feed ends the lines before it for good: what follows is printed as on a roll of its own. */
  lemma {:induction false} LinesJoin(a: seq<Key>, fg: nat, b: seq<Key>, cols: nat)
    requires cols > 0
    ensures Printed(a + [Key(10, fg)] + b, cols)
         == Roll(Printed(a, cols).lines + Printed(b, cols).lines, Printed(b, cols).col)
    decreases |b|
  {
    hide BlankLine, Print;
    var keys := a + [Key(10, fg)];
    if b == [] {
      assert keys + b == keys && keys[..|a|] == a;
      LineFeed(Printed(a, cols), fg, cols);
    } else {
      var n := |b| - 1;
      LinesJoin(a, fg, b[..n], cols);
      assert (keys + b)[..|keys| + n] == keys + b[..n] && (keys + b)[|keys| + n] == b[n];
      PrintBehind(Printed(b[..n], cols), Printed(a, cols).lines, b[n], cols);
    }
  }

  lemma LineFeed(p: Roll, fg: nat, cols: nat)
    requires p.Valid(cols)
    ensures Print(p, Key(10, fg), cols) == Roll(p.lines + [BlankLine(cols)], 0)
  {
  }

  /** At the beginning of a line there is nothing to take back. */
  lemma BackspaceAtStart(keys: seq<Key>, fg: nat, cols: nat)
    requires cols > 0 && Printed(keys, cols).col == 0
    ensures Printed(keys + [Key(8, fg)], cols) == Printed(keys, cols)
  {
    assert (keys + [Key(8, fg)])[..|keys|] == keys;
  }
}
