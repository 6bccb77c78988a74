/** The pixels of a frame buffer, as a matrix read out of its bytes, and the painting of rectangles on it. */
module Raster {
  import opened Arith
  import opened Bytes
  import opened Bits
  import opened Terminal

  const FONT_WIDTH: nat := 8
  const FONT_HEIGHT: nat := 16

  type Pixel = seq<byte>
  type Picture = seq<seq<Pixel>>

  /** A video mode, and the scale at which glyphs are drawn. */
  datatype Mode = Mode(width: nat, height: nat, pitch: nat, bytesPerPixel: nat, scale: nat)
  {
    function CellWidth(): nat { FONT_WIDTH * scale }

    function CellHeight(): nat { FONT_HEIGHT * scale }

    /** Three or four bytes a pixel, lines long enough, at least one whole cell; 32-bit coordinates do not wrap. */
    predicate Valid() {
      && (bytesPerPixel == 3 || bytesPerPixel == 4)
      && width * bytesPerPixel <= pitch
      && scale > 0 && CellWidth() <= width < 0x3000_0000 && CellHeight() <= height < 0x3000_0000
    }
  }

  /** Where the bytes of pixel (x, y) start. */
  function PixelOffset(m: Mode, x: nat, y: nat): (o: nat)
    requires m.Valid() && x < m.width && y < m.height
    ensures o + m.bytesPerPixel <= Times(m.height, m.pitch)
  {
    PixelInside(x, y, m.width, m.height, m.pitch, m.bytesPerPixel);
    y * m.pitch + x * m.bytesPerPixel
  }

  lemma OffsetsApart(m: Mode, x: nat, y: nat, x': nat, y': nat)
    requires m.Valid() && x < m.width && y < m.height && x' < m.width && y' < m.height && (x != x' || y != y')
    ensures PixelOffset(m, x, y) + m.bytesPerPixel <= PixelOffset(m, x', y')
         || PixelOffset(m, x', y') + m.bytesPerPixel <= PixelOffset(m, x, y)
  {
    if y < y' || (y == y' && x < x') {
      PixelsApart(x, y, x', y', m.width, m.pitch, m.bytesPerPixel);
    } else {
      PixelsApart(x', y', x, y, m.width, m.pitch, m.bytesPerPixel);
    }
  }

  /** Pixels follow one another from the upper left corner, to the right and then line by line. */
  lemma PixelPlace(m: Mode, x: nat, y: nat)
    requires m.Valid() && x < m.width && y < m.height
    ensures PixelOffset(m, 0, 0) == 0
    ensures x + 1 < m.width ==> PixelOffset(m, x + 1, y) == PixelOffset(m, x, y) + m.bytesPerPixel
    ensures y + 1 < m.height ==> PixelOffset(m, x, y + 1) == PixelOffset(m, x, y) + m.pitch
  {
    TimesNext(x, m.bytesPerPixel);
    TimesNext(y, m.pitch);
  }

  predicate Sized(m: Mode, mem: seq<byte>) {
    m.Valid() && |mem| == Times(m.height, m.pitch)
  }

  function PixelAt(m: Mode, mem: seq<byte>, x: nat, y: nat): (p: Pixel)
    requires Sized(m, mem) && x < m.width && y < m.height
    ensures |p| == m.bytesPerPixel
  {
    mem[PixelOffset(m, x, y)..PixelOffset(m, x, y) + m.bytesPerPixel]
  }

  /** The bytes of a pixel of colour 0xRRGGBB, lowest first; a fourth byte is opaque. */
  function Encode(m: Mode, color: nat): (p: Pixel)
    ensures |p| == if m.bytesPerPixel == 4 then 4 else 3
  {
    [color % 0x100, color / 0x100 % 0x100, color / 0x1_0000 % 0x100] + if m.bytesPerPixel == 4 then [0xFF] else []
  }

  /** Blue, green and red, in this order, make up the colour; of four bytes the last is 255. */
  lemma EncodeMeans(m: Mode, color: nat)
    requires m.bytesPerPixel == 3 || m.bytesPerPixel == 4
    ensures
      var p := Encode(m, color);
      && |p| == m.bytesPerPixel && p[0] as int + 0x100 * p[1] as int + 0x1_0000 * p[2] as int == color % 0x100_0000
      && (|p| == 4 ==> p[3] == 255)
  {
    ThreeBytes(color);
  }

  ghost predicate IsPicture(m: Mode, r: Picture) {
    |r| == m.height && forall y :: 0 <= y < m.height ==> |r[y]| == m.width
  }

  function PictureLine(m: Mode, mem: seq<byte>, y: nat): (l: seq<Pixel>)
    requires Sized(m, mem) && y < m.height
    ensures |l| == m.width && forall x :: 0 <= x < m.width ==> l[x] == PixelAt(m, mem, x, y)
  {
    seq(m.width, x requires 0 <= x < m.width => PixelAt(m, mem, x, y))
  }

  function PictureOf(m: Mode, mem: seq<byte>): (r: Picture)
    requires Sized(m, mem)
    ensures IsPicture(m, r) && forall y :: 0 <= y < m.height ==> r[y] == PictureLine(m, mem, y)
  {
    seq(m.height, y requires 0 <= y < m.height => PictureLine(m, mem, y))
  }

  /** Writing the bytes of one pixel changes that pixel of the picture and no other. */
  lemma PixelWritten(m: Mode, mem: seq<byte>, x: nat, y: nat, p: Pixel)
    requires Sized(m, mem) && x < m.width && y < m.height && |p| == m.bytesPerPixel
    ensures PictureOf(m, Splice(mem, PixelOffset(m, x, y), p))
         == PictureOf(m, mem)[y := PictureOf(m, mem)[y][x := p]]
  {
    hide PixelOffset, Splice, Mode.Valid, Times;
    var mem' := Splice(mem, PixelOffset(m, x, y), p);
    forall x', y' | 0 <= x' < m.width && 0 <= y' < m.height
      ensures PixelAt(m, mem', x', y') == if x' == x && y' == y then p else PixelAt(m, mem, x', y')
    {
      PixelKept(m, mem, x, y, p, x', y');
    }
    var l, r := PictureOf(m, mem'), PictureOf(m, mem)[y := PictureOf(m, mem)[y][x := p]];
    forall y' | 0 <= y' < m.height ensures l[y'] == r[y'] {
      forall x' | 0 <= x' < m.width ensures l[y'][x'] == r[y'][x'] {
        assert l[y'][x'] == PixelAt(m, mem', x', y');
      }
    }
    assert l == r;
  }

  lemma PixelKept(m: Mode, mem: seq<byte>, x: nat, y: nat, p: Pixel, x': nat, y': nat)
    requires Sized(m, mem) && x < m.width && y < m.height && |p| == m.bytesPerPixel && x' < m.width && y' < m.height
    ensures PixelAt(m, Splice(mem, PixelOffset(m, x, y), p), x', y')
         == if x' == x && y' == y then p else PixelAt(m, mem, x', y')
  {
    hide PixelOffset, Splice, Mode.Valid, Times;
    if x' != x || y' != y {
      OffsetsApart(m, x, y, x', y');
      SpliceApart(mem, PixelOffset(m, x, y), p, PixelOffset(m, x', y'), PixelOffset(m, x', y') + m.bytesPerPixel);
    } else {
      SpliceAt(mem, PixelOffset(m, x, y), p);
    }
  }

  /** Copying the bytes of a line copies the line. */
  lemma LineCopied(m: Mode, mem: seq<byte>, from: nat, to: nat)
    requires Sized(m, mem) && from < m.height && to < m.height
    ensures 0 <= LineOffset(m, from) + LineBytes(m) <= |mem| && 0 <= LineOffset(m, to) + LineBytes(m) <= |mem|
    ensures PictureOf(m, Splice(mem, LineOffset(m, to), mem[LineOffset(m, from)..LineOffset(m, from) + LineBytes(m)]))
         == PictureOf(m, mem)[to := PictureOf(m, mem)[from]]
  {
    hide PixelOffset, Splice, Mode.Valid, Times, LineOffset, LineBytes;
    LineInside(m, from);
    LineInside(m, to);
    var mem' := Splice(mem, LineOffset(m, to), mem[LineOffset(m, from)..LineOffset(m, from) + LineBytes(m)]);
    forall x, y | 0 <= x < m.width && 0 <= y < m.height
      ensures PixelAt(m, mem', x, y) == PixelAt(m, mem, x, if y == to then from else y)
    {
      LinePixel(m, mem, from, to, x, y);
    }
    var l, r := PictureOf(m, mem'), PictureOf(m, mem)[to := PictureOf(m, mem)[from]];
    forall y | 0 <= y < m.height ensures l[y] == r[y] {
      assert l[y] == PictureLine(m, mem', y);
      assert forall x :: 0 <= x < m.width ==> l[y][x] == r[y][x];
    }
    assert l == r;
  }

  /** The first byte of line `y`, and the number of its bytes that hold pixels. */
  function LineOffset(m: Mode, y: nat): (o: nat) {
    Times(y, m.pitch)
  }

  function LineBytes(m: Mode): (n: nat) {
    Times(m.width, m.bytesPerPixel)
  }

  lemma LineInside(m: Mode, y: nat)
    requires m.Valid() && y < m.height
    ensures LineOffset(m, y) + LineBytes(m) <= LineOffset(m, y) + m.pitch <= Times(m.height, m.pitch)
  {
    MulLess(y, m.height, m.pitch);
  }

  lemma LineOrder(m: Mode, y: nat, y': nat)
    requires m.Valid() && y < y'
    ensures LineOffset(m, y) + LineBytes(m) <= LineOffset(m, y) + m.pitch <= LineOffset(m, y')
  {
    MulLess(y, y', m.pitch);
  }

  lemma PixelInLine(m: Mode, x: nat, y: nat)
    requires m.Valid() && x < m.width && y < m.height
    ensures PixelOffset(m, x, y) == LineOffset(m, y) + Times(x, m.bytesPerPixel)
    ensures Times(x, m.bytesPerPixel) + m.bytesPerPixel <= LineBytes(m)
  {
    MulLess(x, m.width, m.bytesPerPixel);
  }

  lemma LinePixel(m: Mode, mem: seq<byte>, from: nat, to: nat, x: nat, y: nat)
    requires Sized(m, mem) && from < m.height && to < m.height && x < m.width && y < m.height
    requires LineOffset(m, from) + LineBytes(m) <= |mem| && LineOffset(m, to) + LineBytes(m) <= |mem|
    ensures PixelAt(m, Splice(mem, LineOffset(m, to), mem[LineOffset(m, from)..LineOffset(m, from) + LineBytes(m)]), x, y)
         == PixelAt(m, mem, x, if y == to then from else y)
  {
    hide PixelOffset, Splice, Mode.Valid, Times, LineOffset, LineBytes;
    PixelInLine(m, x, y);
    PixelInLine(m, x, from);
    if y < to {
      LineOrder(m, y, to);
    } else if to < y {
      LineOrder(m, to, y);
    }
    var copy := mem[LineOffset(m, from)..LineOffset(m, from) + LineBytes(m)];
    var l, r := PixelAt(m, Splice(mem, LineOffset(m, to), copy), x, y), PixelAt(m, mem, x, if y == to then from else y);
    var a := Times(x, m.bytesPerPixel);
    forall i | 0 <= i < m.bytesPerPixel ensures l[i] == r[i] {
      if y == to {
        assert copy[a + i] == mem[LineOffset(m, from) + (a + i)];
      }
    }
    assert l == r;
  }

  // ---- Painting.

  predicate Inside(x: int, y: int, x0: int, y0: int, x1: int, y1: int) {
    x0 <= x < x1 && y0 <= y < y1
  }

  /** `r'` is `r` with every pixel of the rectangle [x0, x1) x [y0, y1) that is on the screen set to `p`. */
  ghost predicate Painted(m: Mode, r: Picture, r': Picture, x0: int, y0: int, x1: int, y1: int, p: Pixel) {
    && IsPicture(m, r) && IsPicture(m, r')
    && forall x, y :: 0 <= x < m.width && 0 <= y < m.height ==>
         r'[y][x] == if Inside(x, y, x0, y0, x1, y1) then p else r[y][x]
  }

  lemma PaintNothing(m: Mode, r: Picture, x0: int, y0: int, x1: int, y1: int, p: Pixel)
    requires IsPicture(m, r) && (x0 >= x1 || y0 >= y1 || x0 >= m.width || y0 >= m.height)
    ensures Painted(m, r, r, x0, y0, x1, y1, p)
  {
  }

  lemma PaintPixel(m: Mode, r: Picture, x: nat, y: nat, p: Pixel)
    requires IsPicture(m, r) && x < m.width && y < m.height
    ensures Painted(m, r, r[y := r[y][x := p]], x, y, x + 1, y + 1, p)
  {
  }

  /** Two rectangles side by side, or one on top of the other, are one rectangle. */
  lemma PaintJoin(m: Mode, r: Picture, r': Picture, r'': Picture,
                  x0: int, y0: int, x1: int, y1: int, x2: int, y2: int, p: Pixel)
    requires x0 <= x1 <= x2 && y0 <= y1 <= y2
    requires Painted(m, r, r', x0, y0, x1, y1, p)
    requires (y1 == y2 && Painted(m, r', r'', x1, y0, x2, y2, p)) || (x1 == x2 && Painted(m, r', r'', x0, y1, x2, y2, p))
    ensures Painted(m, r, r'', x0, y0, x2, y2, p)
  {
  }

  // ---- Glyphs.

  type Glyph = seq<byte>
  type Font = seq<Glyph>

  /** 128 glyphs of sixteen rows, the space one empty. */
  ghost predicate IsFont(font: Font) {
    && |font| == 128 && (forall g :: 0 <= g < 128 ==> |font[g]| == FONT_HEIGHT)
    && forall row :: 0 <= row < FONT_HEIGHT ==> font[32][row] == 0
  }

  /** The colour of dot (col, row) of a glyph: the leftmost dot is the highest bit of the row. */
  function Ink(glyph: Glyph, col: nat, row: nat, fg: nat, bg: nat): nat
    requires |glyph| == FONT_HEIGHT && col < FONT_WIDTH && row < FONT_HEIGHT
  {
    if Bit(glyph[row], 7 - col) then fg else bg
  }

  /** The colour of pixel (dx, dy) of a cell that shows a glyph. */
  function CellInk(m: Mode, glyph: Glyph, dx: nat, dy: nat, fg: nat, bg: nat): nat
    requires m.Valid() && |glyph| == FONT_HEIGHT && dx < m.CellWidth() && dy < m.CellHeight()
  {
    Ink(glyph, Quotient(dx, m.scale, FONT_WIDTH), Quotient(dy, m.scale, FONT_HEIGHT), fg, bg)
  }

  /** A dot is as many pixels wide and high as the scale, and its bit is found by shifting the row to the right. */
  lemma CellDot(m: Mode, glyph: Glyph, dx: nat, dy: nat, fg: nat, bg: nat)
    requires m.Valid() && |glyph| == FONT_HEIGHT && dx < m.CellWidth() && dy < m.CellHeight()
    ensures 0 <= dx / m.scale < 8 && 0 <= dy / m.scale < 16
    ensures CellInk(m, glyph, dx, dy, fg, bg) == if glyph[dy / m.scale] / Pow2(7 - dx / m.scale) % 2 == 1 then fg else bg
  {
    hide Bit, Pow2;
    var col, row := Quotient(dx, m.scale, FONT_WIDTH), Quotient(dy, m.scale, FONT_HEIGHT);
    BitShift(glyph[row], 7 - col);
  }

  /** What is drawn at (x0, y0): a glyph in its two colours. */
  datatype Stamp = Stamp(x0: nat, y0: nat, glyph: Glyph, fg: nat, bg: nat)

  ghost predicate FitsCell(m: Mode, st: Stamp, dx0: nat, dy0: nat, dx1: nat, dy1: nat) {
    m.Valid() && |st.glyph| == FONT_HEIGHT && dx0 <= dx1 <= m.CellWidth() && dy0 <= dy1 <= m.CellHeight()
  }

  /** `r'` is `r` with the part [dx0, dx1) x [dy0, dy1) of the stamp's cell drawn, as far as it is on the screen. */
  ghost predicate Stamped(m: Mode, r: Picture, r': Picture, st: Stamp, dx0: nat, dy0: nat, dx1: nat, dy1: nat) {
    && IsPicture(m, r) && IsPicture(m, r') && FitsCell(m, st, dx0, dy0, dx1, dy1)
    && forall x, y :: 0 <= x < m.width && 0 <= y < m.height ==>
         r'[y][x] == if Inside(x, y, st.x0 + dx0, st.y0 + dy0, st.x0 + dx1, st.y0 + dy1)
                     then Encode(m, CellInk(m, st.glyph, x - st.x0, y - st.y0, st.fg, st.bg)) else r[y][x]
  }

  /** A dot of the glyph is a square of one colour. */
  lemma StampDot(m: Mode, r: Picture, r': Picture, st: Stamp, col: nat, row: nat)
    requires m.Valid() && |st.glyph| == FONT_HEIGHT && col < FONT_WIDTH && row < FONT_HEIGHT
    requires Painted(m, r, r', st.x0 + Times(col, m.scale), st.y0 + Times(row, m.scale),
                     st.x0 + Times(col, m.scale) + m.scale, st.y0 + Times(row, m.scale) + m.scale,
                     Encode(m, Ink(st.glyph, col, row, st.fg, st.bg)))
    ensures Times(col, m.scale) + m.scale <= m.CellWidth() && Times(row, m.scale) + m.scale <= m.CellHeight()
    ensures Stamped(m, r, r', st, Times(col, m.scale), Times(row, m.scale),
                    Times(col, m.scale) + m.scale, Times(row, m.scale) + m.scale)
  {
    hide Times, Encode, Ink, Quotient;
    DotInCell(col, m.scale, FONT_WIDTH);
    DotInCell(row, m.scale, FONT_HEIGHT);
    var dx, dy := Times(col, m.scale), Times(row, m.scale);
    forall x, y | 0 <= x < m.width && 0 <= y < m.height
      ensures r'[y][x] == if Inside(x, y, st.x0 + dx, st.y0 + dy, st.x0 + (dx + m.scale), st.y0 + (dy + m.scale))
                          then Encode(m, CellInk(m, st.glyph, x - st.x0, y - st.y0, st.fg, st.bg)) else r[y][x]
    {
      if Inside(x, y, st.x0 + dx, st.y0 + dy, st.x0 + (dx + m.scale), st.y0 + (dy + m.scale)) {
        QuotientIs(x - st.x0, m.scale, FONT_WIDTH, col);
        QuotientIs(y - st.y0, m.scale, FONT_HEIGHT, row);
      }
    }
  }

  lemma StampNothing(m: Mode, r: Picture, st: Stamp, dx0: nat, dy0: nat, dx1: nat, dy1: nat)
    requires IsPicture(m, r) && FitsCell(m, st, dx0, dy0, dx1, dy1) && (dx0 == dx1 || dy0 == dy1)
    ensures Stamped(m, r, r, st, dx0, dy0, dx1, dy1)
  {
  }

  lemma StampRight(m: Mode, r: Picture, r': Picture, r'': Picture, st: Stamp, dx0: nat, dy0: nat, dx1: nat, dy1: nat, dx2: nat)
    requires dx1 <= dx2 && Stamped(m, r, r', st, dx0, dy0, dx1, dy1) && Stamped(m, r', r'', st, dx1, dy0, dx2, dy1)
    ensures Stamped(m, r, r'', st, dx0, dy0, dx2, dy1)
  {
    hide Encode, CellInk;
  }

  lemma StampBelow(m: Mode, r: Picture, r': Picture, r'': Picture, st: Stamp, dx0: nat, dy0: nat, dx1: nat, dy1: nat, dy2: nat)
    requires dy1 <= dy2 && Stamped(m, r, r', st, dx0, dy0, dx1, dy1) && Stamped(m, r', r'', st, dx0, dy1, dx1, dy2)
    ensures Stamped(m, r, r'', st, dx0, dy0, dx1, dy2)
  {
    hide Encode, CellInk;
  }

  // ---- The picture of a grid of cells.

  const BACKGROUND: nat := 0x0D0D1A

  function Rows(m: Mode): (n: nat)
    requires m.Valid()
    ensures n > 0
  {
    FitsWhole(1, m.height, m.CellHeight());
    TimesNext(0, m.CellHeight());
    Fits(m.height, m.CellHeight())
  }

  function Cols(m: Mode): (n: nat)
    requires m.Valid()
    ensures n > 0
  {
    FitsWhole(1, m.width, m.CellWidth());
    TimesNext(0, m.CellWidth());
    Fits(m.width, m.CellWidth())
  }

  ghost predicate Showable(m: Mode, font: Font, g: Grid) {
    && m.Valid() && IsFont(font) && g.Valid(Rows(m), Cols(m))
    && forall i, j :: 0 <= i < Rows(m) && 0 <= j < Cols(m) ==> g.lines[i][j].glyph < 128
  }

  /** The colour of a pixel: the ink of the cell it lies in, the background in the right and bottom margins. */
  ghost function GridInk(m: Mode, font: Font, g: Grid, x: nat, y: nat): nat
    requires Showable(m, font, g)
  {
    var row, col := Fits(y, m.CellHeight()), Fits(x, m.CellWidth());
    if row < Rows(m) && col < Cols(m) then
      var cell := g.lines[row][col];
      CellInk(m, font[cell.glyph], Remainder(x, m.CellWidth()), Remainder(y, m.CellHeight()), cell.fg, BACKGROUND)
    else
      BACKGROUND
  }

  ghost predicate Shows(m: Mode, font: Font, r: Picture, g: Grid) {
    && IsPicture(m, r) && Showable(m, font, g)
    && forall x, y :: 0 <= x < m.width && 0 <= y < m.height ==> r[y][x] == Encode(m, GridInk(m, font, g, x, y))
  }

  /** Drawing a glyph over the cell at (col, row) changes that cell. */
  lemma StampShows(m: Mode, font: Font, r: Picture, r': Picture, g: Grid, row: nat, col: nat, cell: Cell, st: Stamp)
    requires Shows(m, font, r, g) && row < Rows(m) && col < Cols(m) && cell.glyph < 128
    requires st == Stamp(Times(col, m.CellWidth()), Times(row, m.CellHeight()), font[cell.glyph], cell.fg, BACKGROUND)
    requires Stamped(m, r, r', st, 0, 0, m.CellWidth(), m.CellHeight())
    ensures Shows(m, font, r', g.(lines := WithCell(g.lines, row, col, cell)))
  {
    hide Times, Encode, CellInk, Fits, Remainder, Rows, Cols, IsFont;
    var g' := g.(lines := WithCell(g.lines, row, col, cell));
    forall x, y | 0 <= x < m.width && 0 <= y < m.height
      ensures r'[y][x] == Encode(m, GridInk(m, font, g', x, y))
    {
      FitsBetween(x, m.CellWidth(), col);
      FitsBetween(y, m.CellHeight(), row);
    }
  }

  /** The picture with its upper `n` lines dropped and as many lines of colour `bg` below. */
  function Scrolled(m: Mode, r: Picture, n: nat, bg: nat): (r': Picture)
    requires |r| == m.height && n <= m.height
  {
    r[n..] + seq(n, _ => seq(m.width, _ => Encode(m, bg)))
  }

  /** A space shows nothing but background. */
  lemma SpaceIsBlank(m: Mode, font: Font, dx: nat, dy: nat, fg: nat)
    requires m.Valid() && IsFont(font) && dx < m.CellWidth() && dy < m.CellHeight()
    ensures CellInk(m, font[32], dx, dy, fg, BACKGROUND) == BACKGROUND
  {
    hide Quotient;
    NoBits(7 - Quotient(dx, m.scale, FONT_WIDTH));
  }

  lemma {:induction false} NoBits(i: nat)
    ensures !Bit(0, i)
  {
    if i != 0 {
      NoBits(i - 1);
    }
  }

  /** Scrolling the picture by the height of a cell scrolls the grid by one line. */
  lemma ScrollShows(m: Mode, font: Font, r: Picture, g: Grid)
    requires Shows(m, font, r, g)
    ensures Shows(m, font, Scrolled(m, r, m.CellHeight(), BACKGROUND), g.(lines := g.lines[1..] + [BlankLine(Cols(m))]))
  {
    hide Times, Encode, CellInk, Fits, Remainder, Cols, IsFont;
    var r', g' := Scrolled(m, r, m.CellHeight(), BACKGROUND), g.(lines := g.lines[1..] + [BlankLine(Cols(m))]);
    forall x, y | 0 <= x < m.width && 0 <= y < m.height
      ensures r'[y][x] == Encode(m, GridInk(m, font, g', x, y))
    {
      FitsShift(y, m.CellHeight());
      var row, col := Fits(y, m.CellHeight()), Fits(x, m.CellWidth());
      if row + 1 == Rows(m) && col < Cols(m) {
        SpaceIsBlank(m, font, Remainder(x, m.CellWidth()), Remainder(y, m.CellHeight()), 0);
      }
      if y + m.CellHeight() >= m.height {
        FitsBottom(y, m.height, m.CellHeight());
      } else {
        assert r'[y] == r[y + m.CellHeight()];
      }
    }
  }

  lemma ClearShows(m: Mode, font: Font, r: Picture)
    requires m.Valid() && IsFont(font) && IsPicture(m, r)
    requires forall x, y :: 0 <= x < m.width && 0 <= y < m.height ==> r[y][x] == Encode(m, BACKGROUND)
    ensures Shows(m, font, r, Cleared(Rows(m), Cols(m)))
  {
    hide Times, Encode, CellInk, Fits, Remainder, Rows, Cols, IsFont;
    var g := Cleared(Rows(m), Cols(m));
    forall x, y | 0 <= x < m.width && 0 <= y < m.height
      ensures GridInk(m, font, g, x, y) == BACKGROUND
    {
      var row, col := Fits(y, m.CellHeight()), Fits(x, m.CellWidth());
      if row < Rows(m) && col < Cols(m) {
        SpaceIsBlank(m, font, Remainder(x, m.CellWidth()), Remainder(y, m.CellHeight()), 0);
      }
    }
  }

  /** The cursor is not drawn. */
  lemma ShowsAnyCursor(m: Mode, font: Font, r: Picture, g: Grid, row: nat, col: nat)
    requires Shows(m, font, r, g) && row < Rows(m) && col < Cols(m)
    ensures Shows(m, font, r, Grid(g.lines, row, col))
  {
    hide Encode, CellInk, Fits, Remainder, Rows, Cols, IsFont;
    var g' := Grid(g.lines, row, col);
    forall x, y | 0 <= x < m.width && 0 <= y < m.height
      ensures GridInk(m, font, g', x, y) == GridInk(m, font, g, x, y)
    {
    }
  }

  // ---- Scrolling line by line.

  /** `r'` is `r` with each of its first `n` lines replaced by the one `ch` lines below. */
  ghost predicate MovedUp(m: Mode, r: Picture, r': Picture, ch: nat, n: nat) {
    && IsPicture(m, r) && IsPicture(m, r') && n + ch <= m.height
    && (forall y :: 0 <= y < n ==> r'[y] == r[y + ch])
    && forall y :: n <= y < m.height ==> r'[y] == r[y]
  }

  lemma MoveNone(m: Mode, r: Picture, ch: nat)
    requires IsPicture(m, r) && ch <= m.height
    ensures MovedUp(m, r, r, ch, 0)
  {
  }

  lemma MoveUp(m: Mode, r: Picture, r': Picture, ch: nat, n: nat)
    requires MovedUp(m, r, r', ch, n) && n + ch < m.height
    ensures MovedUp(m, r, r'[n := r'[n + ch]], ch, n + 1)
  {
    assert r'[n + ch] == r[n + ch] && |r'[n + ch]| == m.width;
  }

  lemma MovedAndCleared(m: Mode, r: Picture, r': Picture, r'': Picture, ch: nat, bg: nat)
    requires ch <= m.height && MovedUp(m, r, r', ch, m.height - ch)
    requires Painted(m, r', r'', 0, m.height - ch, m.width, m.height, Encode(m, bg))
    ensures r'' == Scrolled(m, r, ch, bg)
  {
    hide Encode;
    var s := Scrolled(m, r, ch, bg);
    forall y | 0 <= y < m.height ensures r''[y] == s[y] {
      forall x | 0 <= x < m.width ensures r''[y][x] == s[y][x] {
        assert y < m.height - ch ==> r'[y] == r[y + ch];
      }
    }
    assert r'' == s;
  }

  // ---- The cursor.

  lemma WholeCell(s: nat)
    ensures Times(FONT_WIDTH, s) == FONT_WIDTH * s && Times(FONT_HEIGHT, s) == FONT_HEIGHT * s
  {
  }

  /** The driver's test for the last line, in pixels, is the test in lines. */
  lemma LastLine(m: Mode, row: nat)
    requires m.Valid() && row < Rows(m)
    ensures Times(row + 1, m.CellHeight()) == Times(row, m.CellHeight()) + m.CellHeight() <= m.height
    ensures Times(row, m.CellHeight()) + m.CellHeight() + m.CellHeight() > m.height <==> row + 1 == Rows(m)
  {
    hide Times, Fits;
    TimesNext(row, m.CellHeight());
    TimesNext(row + 1, m.CellHeight());
    FitsWhole(row + 1, m.height, m.CellHeight());
    FitsWhole(row + 2, m.height, m.CellHeight());
  }

  lemma LastColumn(m: Mode, col: nat)
    requires m.Valid() && col < Cols(m)
    ensures Times(col + 1, m.CellWidth()) == Times(col, m.CellWidth()) + m.CellWidth() <= m.width
    ensures Times(col, m.CellWidth()) + m.CellWidth() + m.CellWidth() > m.width <==> col + 1 == Cols(m)
    ensures Times(col, m.CellWidth()) >= m.CellWidth() <==> col > 0
  {
    hide Times, Fits;
    TimesNext(col, m.CellWidth());
    TimesNext(col + 1, m.CellWidth());
    FitsWhole(col + 1, m.width, m.CellWidth());
    FitsWhole(col + 2, m.width, m.CellWidth());
    if col > 0 {
      TimesNext(col - 1, m.CellWidth());
    }
  }
}
