/** The frame buffer driver: pixels, glyphs, scrolling, and a cursor that moves over a grid of cells. */
module Framebuffer {
  import opened Arith
  import opened Bytes
  import opened Bits
  import opened Raster
  import opened Terminal

  class Framebuffer {
    const mode: Mode
    const font: Font
    const mem: array<byte>
    var cursorX: nat
    var cursorY: nat
    var fg: nat
    ghost var grid: Grid

    ghost function Pixels(): Picture
      reads this, mem
      requires Sized(mode, mem[..])
    {
      PictureOf(mode, mem[..])
    }

    ghost predicate Ready()
      reads this, mem
    {
      Sized(mode, mem[..]) && mode.Valid() && IsFont(font) && |font| == 128
    }

    /** The picture is that of the grid, and the cursor is in the grid's current line. */
    ghost predicate Displays()
      reads this, mem
    {
      && Ready()
      && Shows(mode, font, Pixels(), grid)
      && grid.Valid(Rows(mode), Cols(mode))
      && cursorY == Times(grid.row, mode.CellHeight())
    }

    /** Besides, the cursor is at the upper left pixel of the grid's current cell. */
    ghost predicate Valid()
      reads this, mem
    {
      Displays() && cursorX == Times(grid.col, mode.CellWidth())
    }

    method PutPixel(x: nat, y: nat, color: nat)
      requires Ready()
      modifies mem
      ensures Ready() && Painted(mode, old(Pixels()), Pixels(), x, y, x + 1, y + 1, Encode(mode, color))
    {
      hide IsFont, PixelOffset, Times;
      ghost var before := mem[..];
      if x >= mode.width || y >= mode.height {
        PaintNothing(mode, Pixels(), x, y, x + 1, y + 1, Encode(mode, color));
        return;
      }
      var pixel := PixelOffset(mode, x, y);
      StorePixel(pixel, color);
      PixelWritten(mode, before, x, y, Encode(mode, color));
      PaintPixel(mode, PictureOf(mode, before), x, y, Encode(mode, color));
    }

    /** The three or four stores of one pixel. */
    method StorePixel(o: nat, color: nat)
      requires Ready() && o + mode.bytesPerPixel <= mem.Length
      modifies mem
      ensures mem[..] == Splice(old(mem[..]), o, Encode(mode, color))
    {
      hide IsFont, Times;
      mem[o] := color % 0x100;
      mem[o + 1] := color / 0x100 % 0x100;
      mem[o + 2] := color / 0x1_0000 % 0x100;
      if mode.bytesPerPixel == 4 {
        mem[o + 3] := 0xFF;
      }
    }

    method Fill(color: nat)
      requires Ready()
      modifies mem
      ensures Ready() && Painted(mode, old(Pixels()), Pixels(), 0, 0, mode.width, mode.height, Encode(mode, color))
    {
      hide IsFont, Times, Encode, Mode.Valid, PictureOf, Painted, Sized;
      ghost var r := Pixels();
      ghost var p := Encode(mode, color);
      PaintNothing(mode, r, 0, 0, mode.width, 0, p);
      for y := 0 to mode.height
        invariant Ready() && Painted(mode, r, Pixels(), 0, 0, mode.width, y, p)
      {
        ghost var r1 := Pixels();
        PaintNothing(mode, r1, 0, y, 0, y + 1, p);
        for x := 0 to mode.width
          invariant Ready() && Painted(mode, r1, Pixels(), 0, y, x, y + 1, p)
        {
          ghost var r2 := Pixels();
          PutPixel(x, y, color);
          PaintJoin(mode, r1, r2, Pixels(), 0, y, x, y + 1, x + 1, y + 1, p);
        }
        PaintJoin(mode, r, r1, Pixels(), 0, 0, mode.width, y, mode.width, y + 1, p);
      }
    }

    /** One dot of a glyph at the current scale. */
    method PutDot(x: nat, y: nat, color: nat)
      requires Ready()
      modifies mem
      ensures Ready()
      ensures Painted(mode, old(Pixels()), Pixels(), x, y, x + mode.scale, y + mode.scale, Encode(mode, color))
    {
      hide IsFont, Times, Encode, Mode.Valid, PictureOf, Painted, Sized;
      ghost var r := Pixels();
      ghost var p := Encode(mode, color);
      PaintNothing(mode, r, x, y, x + mode.scale, y, p);
      for sy := 0 to mode.scale
        invariant Ready() && Painted(mode, r, Pixels(), x, y, x + mode.scale, y + sy, p)
      {
        ghost var r1 := Pixels();
        PaintNothing(mode, r1, x, y + sy, x, y + sy + 1, p);
        for sx := 0 to mode.scale
          invariant Ready() && Painted(mode, r1, Pixels(), x, y + sy, x + sx, y + sy + 1, p)
        {
          ghost var r2 := Pixels();
          PutPixel(x + sx, y + sy, color);
          PaintJoin(mode, r1, r2, Pixels(), x, y + sy, x + sx, y + sy + 1, x + sx + 1, y + sy + 1, p);
        }
        PaintJoin(mode, r, r1, Pixels(), x, y, x + mode.scale, y + sy, x + mode.scale, y + sy + 1, p);
      }
    }

    /** One row of dots of a glyph. */
    method PutGlyphRow(st: Stamp, row: nat)
      requires Ready() && |st.glyph| == FONT_HEIGHT && row < FONT_HEIGHT
      modifies mem
      ensures Ready() && Times(row, mode.scale) + mode.scale <= mode.CellHeight()
      ensures Stamped(mode, old(Pixels()), Pixels(), st, 0, Times(row, mode.scale),
                      mode.CellWidth(), Times(row, mode.scale) + mode.scale)
    {
      hide Times, Encode, PictureOf, Sized, Stamped, Painted;
      ghost var r := Pixels();
      var s, dy := mode.scale, Times(row, mode.scale);
      DotInCell(row, s, FONT_HEIGHT);
      WholeCell(s);
      TimesNext(0, s);
      StampNothing(mode, r, st, 0, dy, 0, dy + s);
      for col := 0 to FONT_WIDTH
        invariant Ready() && Stamped(mode, r, Pixels(), st, 0, dy, Times(col, s), dy + s)
      {
        ghost var r1 := Pixels();
        var dx := Times(col, s);
        var color := if Bit(st.glyph[row], 7 - col) then st.fg else st.bg;
        PutDot(st.x0 + dx, st.y0 + dy, color);
        StampDot(mode, r1, Pixels(), st, col, row);
        TimesNext(col, s);
        StampRight(mode, r, r1, Pixels(), st, 0, dy, dx, dy + s, dx + s);
      }
    }

    /** Draws a character at (x, y), clipped to the screen. */
    method PutChar(x: nat, y: nat, c: byte, fg: nat, bg: nat)
      requires Ready()
      modifies mem
      ensures Ready()
      ensures Stamped(mode, old(Pixels()), Pixels(), Stamp(x, y, font[if c < 128 then c else 63], fg, bg),
                      0, 0, mode.CellWidth(), mode.CellHeight())
    {
      hide Times, Encode, PictureOf, Sized, Stamped;
      var st := Stamp(x, y, font[GlyphOf(c)], fg, bg);
      ghost var r := Pixels();
      var s := mode.scale;
      WholeCell(s);
      TimesNext(0, s);
      StampNothing(mode, r, st, 0, 0, mode.CellWidth(), 0);
      for row := 0 to FONT_HEIGHT
        invariant Ready() && Stamped(mode, r, Pixels(), st, 0, 0, mode.CellWidth(), Times(row, s))
      {
        ghost var r1 := Pixels();
        PutGlyphRow(st, row);
        TimesNext(row, s);
        StampBelow(mode, r, r1, Pixels(), st, 0, 0, mode.CellWidth(), Times(row, s), Times(row, s) + s);
      }
    }

    /** Copies `n` bytes to a lower address, one after the other, over a possibly overlapping range. */
    method CopyDown(d: nat, s: nat, n: nat)
      requires d <= s && s + n <= mem.Length
      modifies mem
      ensures mem[..] == Splice(old(mem[..]), d, old(mem[s..s + n]))
    {
      ghost var before := mem[..];
      for col := 0 to n
        invariant forall i :: 0 <= i < d || d + col <= i < mem.Length ==> mem[i] == before[i]
        invariant forall i :: d <= i < d + col ==> mem[i] == before[s + (i - d)]
      {
        mem[d + col] := mem[s + col];
      }
      assert mem[..] == Splice(before, d, before[s..s + n]);
    }

    /** The copying loop of the scroll, line by line. */
    method MoveLinesUp(ch: nat)
      requires Ready() && ch == mode.CellHeight()
      modifies mem
      ensures Ready() && MovedUp(mode, old(Pixels()), Pixels(), ch, mode.height - ch)
    {
      hide IsFont, Times, PictureOf, LineOffset, LineBytes, MovedUp, Splice;
      ghost var r := Pixels();
      MoveNone(mode, r, ch);
      for row := 0 to mode.height - ch
        invariant Ready() && MovedUp(mode, r, Pixels(), ch, row)
      {
        ghost var before := mem[..];
        LineInside(mode, row);
        LineInside(mode, row + ch);
        LineOrder(mode, row, row + ch);
        CopyDown(LineOffset(mode, row), LineOffset(mode, row + ch), LineBytes(mode));
        LineCopied(mode, before, row + ch, row);
        MoveUp(mode, r, PictureOf(mode, before), ch, row);
      }
    }

    /** Moves the lines up by the height of a cell and clears those that become free. */
    method Scroll(bg: nat)
      requires Ready()
      modifies mem
      ensures Ready() && Pixels() == Scrolled(mode, old(Pixels()), mode.CellHeight(), bg)
    {
      hide IsFont, Times, Encode, PictureOf, Painted, MovedUp, Scrolled;
      ghost var r := Pixels();
      var ch := mode.CellHeight();
      MoveLinesUp(ch);
      var rowsToMove := mode.height - ch;
      ghost var r1 := Pixels();
      PaintNothing(mode, r1, 0, rowsToMove, mode.width, rowsToMove, Encode(mode, bg));
      for row := rowsToMove to mode.height
        invariant Ready() && Painted(mode, r1, Pixels(), 0, rowsToMove, mode.width, row, Encode(mode, bg))
      {
        ghost var r2 := Pixels();
        ClearLine(row, bg);
        PaintJoin(mode, r1, r2, Pixels(), 0, rowsToMove, mode.width, row, mode.width, row + 1, Encode(mode, bg));
      }
      MovedAndCleared(mode, r, r1, Pixels(), ch, bg);
    }

    method ClearLine(row: nat, bg: nat)
      requires Ready() && row < mode.height
      modifies mem
      ensures Ready()
      ensures Painted(mode, old(Pixels()), Pixels(), 0, row, mode.width, row + 1, Encode(mode, bg))
    {
      hide IsFont, Times, Encode, PictureOf, PixelOffset;
      ghost var r := Pixels();
      ghost var p := Encode(mode, bg);
      PaintNothing(mode, r, 0, row, 0, row + 1, p);
      for col := 0 to mode.width
        invariant Ready() && Painted(mode, r, Pixels(), 0, row, col, row + 1, p)
      {
        ghost var before := mem[..];
        StorePixel(PixelOffset(mode, col, row), bg);
        PixelWritten(mode, before, col, row, p);
        PaintPixel(mode, PictureOf(mode, before), col, row, p);
        PaintJoin(mode, r, PictureOf(mode, before), Pixels(), 0, row, col, row + 1, col + 1, row + 1, p);
      }
    }

    /** The state after fb_init on a fresh buffer and a fill with the background colour. */
    constructor (mode: Mode, font: Font, mem: array<byte>)
      requires Sized(mode, mem[..]) && IsFont(font)
      modifies mem
      ensures Valid() && this.mode == mode && this.font == font && this.mem == mem
      ensures grid == Cleared(Rows(mode), Cols(mode)) && fg == 0xFFFFFF
    {
      hide Times, Encode, PictureOf, Rows, Cols;
      this.mode, this.font, this.mem := mode, font, mem;
      cursorX, cursorY, fg := 0, 0, 0xFFFFFF;
      grid := Cleared(Rows(mode), Cols(mode));
      new;
      Fill(BACKGROUND);
      ClearShows(mode, font, Pixels());
      TimesNext(0, mode.CellWidth());
      TimesNext(0, mode.CellHeight());
    }

    method Newline()
      requires Displays()
      modifies mem, `cursorX, `cursorY, `grid
      ensures Valid() && grid == Terminal.Newline(old(grid), Rows(mode), Cols(mode))
    {
      hide IsFont, Times, Encode, PictureOf, Shows, BlankLine, Scrolled;
      LastLine(mode, grid.row);
      TimesNext(0, mode.CellWidth());
      var ch := mode.CellHeight();
      cursorX := 0;
      cursorY := cursorY + ch;
      ghost var shown := grid;
      if cursorY + ch > mode.height {
        ghost var r := Pixels();
        Scroll(BACKGROUND);
        ScrollShows(mode, font, r, grid);
        cursorY := cursorY - ch;
        shown := shown.(lines := shown.lines[1..] + [BlankLine(Cols(mode))]);
      }
      grid := Terminal.Newline(grid, Rows(mode), Cols(mode));
      ShowsAnyCursor(mode, font, Pixels(), shown, grid.row, grid.col);
    }

    /** Draws over the cell at the cursor. */
    method PutCell(c: byte)
      requires Valid()
      modifies mem, `grid
      ensures Valid()
      ensures grid == Put(old(grid), old(grid).col, Cell(if c < 128 then c else 63, fg), Rows(mode), Cols(mode))
    {
      hide IsFont, Times, Encode, PictureOf, Stamped, Mode.Valid;
      ghost var r := Pixels();
      ghost var cell := Cell(GlyphOf(c), fg);
      PutChar(cursorX, cursorY, c, fg, BACKGROUND);
      StampShows(mode, font, r, Pixels(), grid, grid.row, grid.col, cell,
                 Stamp(cursorX, cursorY, font[GlyphOf(c)], fg, BACKGROUND));
      grid := Put(grid, grid.col, cell, Rows(mode), Cols(mode));
    }

    /** One character at the cursor: the picture goes on showing the grid, and the grid takes one step. */
    method PutCharCursor(c: byte)
      requires Valid()
      modifies mem, `cursorX, `cursorY, `grid
      ensures Valid() && grid == Step(old(grid), Key(c, fg), Rows(mode), Cols(mode))
      ensures cursorX + mode.CellWidth() <= mode.width && cursorY + mode.CellHeight() <= mode.height
    {
      hide IsFont, Times, Encode, PictureOf, Shows, WithCell;
      var cw := mode.CellWidth();
      LastColumn(mode, grid.col);
      if c == NEWLINE {
        Newline();
      } else if c == BACKSPACE {
        if cursorX >= cw {
          cursorX := cursorX - cw;
          ShowsAnyCursor(mode, font, Pixels(), grid, grid.row, grid.col - 1);
          LastColumn(mode, grid.col - 1);
          grid := grid.(col := grid.col - 1);
          PutCell(SPACE);
        }
      } else {
        PutCell(c);
        cursorX := cursorX + cw;
        if cursorX + cw > mode.width {
          Newline();
        } else {
          ShowsAnyCursor(mode, font, Pixels(), grid, grid.row, grid.col + 1);
          grid := grid.(col := grid.col + 1);
        }
      }
      LastColumn(mode, grid.col);
      LastLine(mode, grid.row);
    }
  }

  /** What is sent to the terminal: characters, and changes of the text colour. */
  datatype Event = Char(c: byte) | Colour(fg: nat)

  /** The characters among the events, each with the colour in force. */
  function Keys(events: seq<Event>, fg: nat): (keys: seq<Key>) {
    if events == [] then []
    else match events[0]
      case Char(c) => [Key(c, fg)] + Keys(events[1..], fg)
      case Colour(fg') => Keys(events[1..], fg')
  }

  lemma {:induction false} KeysOfMore(events: seq<Event>, e: Event, fg: nat)
    ensures e.Char? ==> Keys(events + [e], fg) == Keys(events, fg) + [Key(e.c, ColourAfter(events, fg))]
    ensures e.Colour? ==> Keys(events + [e], fg) == Keys(events, fg)
  {
    if events == [] {
      assert events + [e] == [e];
    } else {
      assert (events + [e])[1..] == events[1..] + [e];
      KeysOfMore(events[1..], e, if events[0].Char? then fg else events[0].fg);
    }
  }

  /** A colour holds for the characters behind it, until the next. */
  lemma {:induction false} ColourHolds(a: seq<Event>, fg': nat, b: seq<Event>, fg: nat)
    ensures Keys(a + [Colour(fg')] + b, fg) == Keys(a, fg) + Keys(b, fg')
  {
    var events := a + [Colour(fg')] + b;
    if a == [] {
      assert events == [Colour(fg')] + b && events[1..] == b;
    } else {
      assert events[1..] == a[1..] + [Colour(fg')] + b && events[0] == a[0];
      ColourHolds(a[1..], fg', b, if a[0].Char? then fg else a[0].fg);
    }
  }

  function ColourAfter(events: seq<Event>, fg: nat): nat {
    if events == [] then fg else ColourAfter(events[1..], if events[0].Char? then fg else events[0].fg)
  }

  lemma {:induction false} ColourAfterMore(events: seq<Event>, e: Event, fg: nat)
    ensures ColourAfter(events + [e], fg) == if e.Char? then ColourAfter(events, fg) else e.fg
  {
    if events == [] {
      assert events + [e] == [e];
    } else {
      assert (events + [e])[1..] == events[1..] + [e];
      ColourAfterMore(events[1..], e, if events[0].Char? then fg else events[0].fg);
    }
  }

  /**
   * On a cleared screen, any stream of characters and colour changes leaves the picture of the last lines
   * of the roll on which the same characters are printed without scrolling.
   */
  method Display(fb: Framebuffer, events: seq<Event>)
    requires fb.Valid() && fb.grid == Cleared(Rows(fb.mode), Cols(fb.mode))
    modifies fb, fb.mem
    ensures fb.Valid()
    ensures fb.grid == Window(Printed(Keys(events, old(fb.fg)), Cols(fb.mode)), Rows(fb.mode), Cols(fb.mode))
    ensures Shows(fb.mode, fb.font, fb.Pixels(), fb.grid)
  {
    hide IsFont, Times, Encode, PictureOf, Shows, Step, Rows, Cols, Keys, ColourAfter, Typed;
    ghost var fg, rows, cols := fb.fg, Rows(fb.mode), Cols(fb.mode);
    StartTyping(rows, cols, fg);
    for i := 0 to |events|
      invariant fb.Valid() && fb.fg == ColourAfter(events[..i], fg)
      invariant fb.grid == Typed(Cleared(rows, cols), Keys(events[..i], fg), rows, cols)
    {
      assert events[..i + 1] == events[..i] + [events[i]];
      KeysOfMore(events[..i], events[i], fg);
      ColourAfterMore(events[..i], events[i], fg);
      match events[i] {
        case Char(c) =>
          TypedMore(Cleared(rows, cols), Keys(events[..i], fg), Key(c, fb.fg), rows, cols);
          fb.PutCharCursor(c);
        case Colour(fg') =>
          fb.fg := fg';
      }
    }
    assert events[..|events|] == events;
    ScreenIsWindow(Keys(events, fg), rows, cols);
  }

  lemma StartTyping(rows: nat, cols: nat, fg: nat)
    requires rows > 0 && cols > 0
    ensures Typed(Cleared(rows, cols), Keys([], fg), rows, cols) == Cleared(rows, cols) && ColourAfter([], fg) == fg
  {
  }
}
