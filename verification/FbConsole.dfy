/** The framebuffer text console: glyphs drawn pixel by pixel, scrolled in place. It
    always runs in the 32-bit XRGB format, the only one its initialisation selects. */
module FbConsole {
  import opened Words
  import opened Bytes
  import opened PixelBuffer
  import opened TextGrid

  // ---------------------------------------------------------------------
  // What a grid looks like
  // ---------------------------------------------------------------------

  /** g_font8x16: 16 scan lines for each printable character; left-most pixel in bit 7. */
  predicate ValidFont(font: seq<bytes>) { |font| == 95 && forall glyph <- font :: |glyph| == CHAR_H }

  datatype Style = Style(font: seq<bytes>, fg: u32, bg: u32)

  function FontRow(font: seq<bytes>, c: int, row: nat): byte
    requires ValidFont(font)
  {
    if row >= CHAR_H || !Printable(c) then 0
    else
      assert font[c - 32] in font;
      font[c - 32][row]
  }

  const BIT_WEIGHTS := [128, 64, 32, 16, 8, 4, 2, 1]

  function GlyphColor(style: Style, c: int, row: nat, col: nat): u32
    requires ValidFont(style.font) && col < CHAR_W
  {
    if FontRow(style.font, c, row) / BIT_WEIGHTS[col] % 2 == 1 then style.fg else style.bg
  }

  /** 0xRRGGBB as blue, green, red, 0. */
  function ColorBytes(rgb: u32): (r: bytes)
    ensures |r| == PIXEL_BYTES
  {
    [rgb % 0x100, rgb / 0x100 % 0x100, rgb / 0x1_0000 % 0x100, 0]
  }

  function Cols(mode: Mode): nat { mode.width / CHAR_W }

  function Rows(mode: Mode): u32 { mode.height / CHAR_H }

  /** The colour of a pixel when the grid is displayed: its cell's glyph, or background in
      blank cells and in the margins right of and below the grid. */
  function Shade(style: Style, mode: Mode, g: Grid, x: nat, y: nat): u32
    requires ValidFont(style.font) && GridOk(g, Cols(mode), Rows(mode))
  {
    var col, row := x / CHAR_W, y / CHAR_H;
    if row < Rows(mode) && col < Cols(mode) then
      assert g.cells[row] in g.cells;
      match g.cells[row][col]
      case Blank => style.bg
      case Glyph(c) => GlyphColor(style, c, y % CHAR_H, x % CHAR_W)
    else style.bg
  }

  ghost predicate ShowsAt(buf: bytes, style: Style, mode: Mode, g: Grid, x: int, y: int)
    requires ValidFont(style.font) && GridOk(g, Cols(mode), Rows(mode)) && Holds(buf, mode) && OnScreen(mode, x, y)
  {
    Pixel(buf, mode, x, y) == ColorBytes(Shade(style, mode, g, x, y))
  }

  /** Every pixel of the buffer shows the grid. */
  ghost predicate Shows(buf: bytes, style: Style, mode: Mode, g: Grid)
    requires ValidFont(style.font) && GridOk(g, Cols(mode), Rows(mode)) && Holds(buf, mode)
  {
    forall x, y | OnScreen(mode, x, y) :: ShowsAt(buf, style, mode, g, x, y)
  }

  // ---------------------------------------------------------------------
  // What is displayed, in the bytes of the framebuffer
  // ---------------------------------------------------------------------

  function TwoTo(n: nat): (r: nat)
    ensures r > 0
  {
    if n == 0 then 1 else 2 * TwoTo(n - 1)
  }

  /** The pixel of a scan line that a column shows: bit 7 is left-most. */
  predicate Lit(line: byte, col: nat)
    requires col < 8
  {
    line / TwoTo(7 - col) % 2 == 1
  }

  lemma Weights()
    ensures forall col | 0 <= col < 8 :: BIT_WEIGHTS[col] == TwoTo(7 - col)
  {
    assert TwoTo(1) == 2 && TwoTo(2) == 4 && TwoTo(4) == 16 && TwoTo(5) == 32 && TwoTo(7) == 128;
  }

  /** The pixel lies in a cell of the grid, and the glyph there is lit at it. */
  predicate LitAt(style: Style, mode: Mode, g: Grid, x: nat, y: nat)
    requires ValidFont(style.font) && GridOk(g, mode.width / 8, mode.height / 16)
  {
    && x / 8 < mode.width / 8 && y / 16 < mode.height / 16
    && assert g.cells[y / 16] in g.cells;
       match g.cells[y / 16][x / 8]
       case Blank => false
       case Glyph(c) =>
         && 32 <= c <= 126
         && assert style.font[c - 32] in style.font;
            Lit(style.font[c - 32][y % 16], x % 8)
  }

  lemma ShadeIsLit(style: Style, mode: Mode, g: Grid, x: nat, y: nat)
    requires ValidFont(style.font) && GridOk(g, mode.width / 8, mode.height / 16)
    ensures Shade(style, mode, g, x, y) == if LitAt(style, mode, g, x, y) then style.fg else style.bg
  {
    hide TwoTo, GridOk, ValidFont;
    Weights();
  }

  /** Every pixel is in the foreground colour exactly when the glyph of its cell is lit there, and
      else in the background colour. Blue is the first byte of a pixel, then green and red; the last is 0. */
  lemma ShownBytes(buf: bytes, style: Style, mode: Mode, g: Grid, x: nat, y: nat)
    requires ValidFont(style.font) && GridOk(g, mode.width / 8, mode.height / 16) && Holds(buf, mode)
    requires Shows(buf, style, mode, g) && x < mode.width && y < mode.height
    ensures var at, rgb := y * mode.pitch + 4 * x, if LitAt(style, mode, g, x, y) then style.fg else style.bg;
            && 0 <= at <= |buf| - 4
            && buf[at] == rgb % 256 && buf[at + 1] == rgb / 256 % 256 && buf[at + 2] == rgb / 65536 % 256
            && buf[at + 3] == 0
  {
    hide LitAt, Shade, GridOk;
    assert ShowsAt(buf, style, mode, g, x, y);
    ShadeIsLit(style, mode, g, x, y);
    PixelBytes(buf, mode, x, y, Shade(style, mode, g, x, y));
  }

  lemma PixelBytes(buf: bytes, mode: Mode, x: nat, y: nat, rgb: u32)
    requires Holds(buf, mode) && OnScreen(mode, x, y) && Pixel(buf, mode, x, y) == ColorBytes(rgb)
    ensures var at := y * mode.pitch + 4 * x;
            && 0 <= at <= |buf| - 4
            && buf[at] == rgb % 256 && buf[at + 1] == rgb / 256 % 256 && buf[at + 2] == rgb / 65536 % 256
            && buf[at + 3] == 0
  {
    RowsApart(mode, y, y);
    var p := Pixel(buf, mode, x, y);
    var at := Row(mode, y) + 4 * x;
    assert buf[at] == p[0] && buf[at + 1] == p[1] && buf[at + 2] == p[2] && buf[at + 3] == p[3];
  }

  /** The colours of a scan line, read as binary digits from left to right, spell the font's byte. */
  lemma ScanLineSpells(style: Style, c: int, row: nat)
    requires ValidFont(style.font) && style.fg != style.bg && 32 <= c <= 126 && row < 16
    ensures var lit := seq(8, col requires 0 <= col < 8 => if GlyphColor(style, c, row, col) == style.fg then 1 else 0);
            |style.font[c - 32]| == 16 && style.font[c - 32][row]
            == 128 * lit[0] + 64 * lit[1] + 32 * lit[2] + 16 * lit[3] + 8 * lit[4] + 4 * lit[5] + 2 * lit[6] + lit[7]
  {
    assert style.font[c - 32] in style.font;
    EightDigits(style.font[c - 32][row]);
    Digit(style, c, row, 0, 128);
    Digit(style, c, row, 1, 64);
    Digit(style, c, row, 2, 32);
    Digit(style, c, row, 3, 16);
    Digit(style, c, row, 4, 8);
    Digit(style, c, row, 5, 4);
    Digit(style, c, row, 6, 2);
    Digit(style, c, row, 7, 1);
    hide GlyphColor, FontRow;
  }

  lemma Digit(style: Style, c: int, row: nat, col: nat, weight: nat)
    requires ValidFont(style.font) && style.fg != style.bg && 32 <= c <= 126 && row < 16
    requires col < 8 && weight == BIT_WEIGHTS[col]
    ensures style.font[c - 32] in style.font && |style.font[c - 32]| == 16
    ensures (if GlyphColor(style, c, row, col) == style.fg then 1 else 0) == style.font[c - 32][row] / weight % 2
  {
    assert style.font[c - 32] in style.font;
  }

  lemma EightDigits(n: byte)
    ensures n == 128 * (n / 128 % 2) + 64 * (n / 64 % 2) + 32 * (n / 32 % 2) + 16 * (n / 16 % 2)
                 + 8 * (n / 8 % 2) + 4 * (n / 4 % 2) + 2 * (n / 2 % 2) + n % 2
  {
    Halve(n, 1);
    Halve(n, 2);
    Halve(n, 4);
    Halve(n, 8);
    Halve(n, 16);
    Halve(n, 32);
    Halve(n, 64);
  }

  lemma Halve(n: byte, weight: nat)
    requires weight in {1, 2, 4, 8, 16, 32, 64}
    ensures n / weight == 2 * (n / (2 * weight)) + n / weight % 2
  {
    assert n / weight / 2 == n / (2 * weight);
  }

  predicate InGlyph(px: nat, py: nat, x: nat, y: nat) { px <= x < px + CHAR_W && py <= y < py + CHAR_H }

  // ---------------------------------------------------------------------
  // The effects of the drawing loops, pixel by pixel
  // ---------------------------------------------------------------------

  /** Pixel (u, v) of the new buffer after painting (x, y). */
  predicate PaintedAt(a: bytes, b: bytes, mode: Mode, x: nat, y: nat, rgb: u32, u: int, v: int)
    requires Holds(a, mode) && Holds(b, mode) && OnScreen(mode, u, v)
  {
    Pixel(b, mode, u, v) == if u == x && v == y then ColorBytes(rgb) else Pixel(a, mode, u, v)
  }

  ghost predicate PaintedPixel(a: bytes, b: bytes, mode: Mode, x: nat, y: nat, rgb: u32)
    requires Holds(a, mode) && Holds(b, mode)
  {
    forall u, v | OnScreen(mode, u, v) :: PaintedAt(a, b, mode, x, y, rgb, u, v)
  }

  /** Lines [from, to) and the first `col` pixels of line `to` have the colour, the others are as before. */
  predicate FilledAt(a: bytes, b: bytes, mode: Mode, from: nat, to: nat, col: nat, rgb: u32, u: int, v: int)
    requires Holds(a, mode) && Holds(b, mode) && OnScreen(mode, u, v)
  {
    Pixel(b, mode, u, v) == if from <= v < to || (v == to && u < col) then ColorBytes(rgb) else Pixel(a, mode, u, v)
  }

  ghost predicate FilledLines(a: bytes, b: bytes, mode: Mode, from: nat, to: nat, col: nat, rgb: u32)
    requires Holds(a, mode) && Holds(b, mode)
  {
    forall u, v | OnScreen(mode, u, v) :: FilledAt(a, b, mode, from, to, col, rgb, u, v)
  }

  /** The first `row` scan lines of a glyph and the first `col` pixels of the next are drawn. */
  predicate DrawnAt(a: bytes, b: bytes, style: Style, mode: Mode, px: nat, py: nat, c: int, row: nat, col: nat,
                    u: int, v: int)
    requires Holds(a, mode) && Holds(b, mode) && ValidFont(style.font) && OnScreen(mode, u, v)
  {
    Pixel(b, mode, u, v) ==
    if InGlyph(px, py, u, v) && (v < py + row || (v == py + row && u < px + col))
    then ColorBytes(GlyphColor(style, c, v - py, u - px)) else Pixel(a, mode, u, v)
  }

  ghost predicate DrawnGlyph(a: bytes, b: bytes, style: Style, mode: Mode, px: nat, py: nat, c: int, row: nat, col: nat)
    requires Holds(a, mode) && Holds(b, mode) && ValidFont(style.font)
  {
    forall u, v | OnScreen(mode, u, v) :: DrawnAt(a, b, style, mode, px, py, c, row, col, u, v)
  }

  /** Lines [0, k) hold what was `shift` lines below them. */
  predicate MovedAt(a: bytes, b: bytes, mode: Mode, shift: nat, k: nat, u: int, v: int)
    requires Holds(a, mode) && Holds(b, mode) && k + shift <= mode.height && OnScreen(mode, u, v)
  {
    Pixel(b, mode, u, v) == if v < k then Pixel(a, mode, u, v + shift) else Pixel(a, mode, u, v)
  }

  ghost predicate MovedUp(a: bytes, b: bytes, mode: Mode, shift: nat, k: nat)
    requires Holds(a, mode) && Holds(b, mode) && k + shift <= mode.height
  {
    forall u, v | OnScreen(mode, u, v) :: MovedAt(a, b, mode, shift, k, u, v)
  }

  lemma WritePixelEffect(buf: bytes, mode: Mode, x: nat, y: nat, rgb: u32)
    requires Holds(buf, mode) && OnScreen(mode, x, y)
    ensures var b := WriteLine(buf, mode, y, PIXEL_BYTES * x, ColorBytes(rgb));
            PaintedPixel(buf, b, mode, x, y, rgb) && SamePadding(buf, b, mode)
  {
    hide ColorBytes;
    var b := WriteLine(buf, mode, y, PIXEL_BYTES * x, ColorBytes(rgb));
    WriteLineData(buf, mode, y, PIXEL_BYTES * x, ColorBytes(rgb));
    WriteLinePadding(buf, mode, y, PIXEL_BYTES * x, ColorBytes(rgb));
    forall u, v | OnScreen(mode, u, v)
      ensures PaintedAt(buf, b, mode, x, y, rgb, u, v)
    {
      if !(u == x && v == y) {
        WriteLineOtherPixel(buf, mode, y, PIXEL_BYTES * x, ColorBytes(rgb), u, v);
      }
    }
  }

  /** Copying the pixels of line y + shift over line y. */
  lemma CopyLineEffect(a: bytes, b: bytes, mode: Mode, shift: nat, y: nat, c: bytes)
    requires Holds(a, mode) && Holds(b, mode) && shift > 0 && y + shift < mode.height
    requires MovedUp(a, b, mode, shift, y)
    requires Row(mode, y + shift) + PIXEL_BYTES * mode.width <= |b|
    requires c == WriteLine(b, mode, y, 0, b[Row(mode, y + shift)..Row(mode, y + shift) + PIXEL_BYTES * mode.width])
    ensures MovedUp(a, c, mode, shift, y + 1) && SamePadding(b, c, mode)
  {
    hide Row, WriteLine, SamePadding, Pixel;
    var source := b[Row(mode, y + shift)..Row(mode, y + shift) + PIXEL_BYTES * mode.width];
    RowsApart(mode, y, y);
    RowsApart(mode, y + shift, y + shift);
    WriteLineData(b, mode, y, 0, source);
    WriteLinePadding(b, mode, y, 0, source);
    forall u, v | OnScreen(mode, u, v)
      ensures MovedAt(a, c, mode, shift, y + 1, u, v)
    {
      if v != y {
        WriteLineOtherPixel(b, mode, y, 0, source, u, v);
        assert MovedAt(a, b, mode, shift, y, u, v);
      } else {
        CopiedPixel(b, mode, shift, y, c, source, u);
        assert MovedAt(a, b, mode, shift, y, u, y + shift);
      }
    }
  }

  lemma CopiedPixel(b: bytes, mode: Mode, shift: nat, y: nat, c: bytes, source: bytes, u: nat)
    requires Holds(b, mode) && Holds(c, mode) && y + shift < mode.height && u < mode.width
    requires |source| == PIXEL_BYTES * mode.width
    requires Row(mode, y + shift) + |source| <= |b| && Row(mode, y) + |source| <= |c|
    requires source == b[Row(mode, y + shift)..Row(mode, y + shift) + |source|]
    requires source == c[Row(mode, y)..Row(mode, y) + |source|]
    ensures Pixel(c, mode, u, y) == Pixel(b, mode, u, y + shift)
  {
    hide Row;
    PartOfSlice(b, Row(mode, y + shift), source, PIXEL_BYTES * u, PIXEL_BYTES * u + PIXEL_BYTES);
    PartOfSlice(c, Row(mode, y), source, PIXEL_BYTES * u, PIXEL_BYTES * u + PIXEL_BYTES);
  }

  // ---------------------------------------------------------------------
  // The effects as changes of the grid
  // ---------------------------------------------------------------------

  lemma BlankShade(style: Style, mode: Mode, x: nat, y: nat)
    requires ValidFont(style.font)
    ensures GridOk(ClearGrid(Cols(mode), Rows(mode)), Cols(mode), Rows(mode))
    ensures Shade(style, mode, ClearGrid(Cols(mode), Rows(mode)), x, y) == style.bg
  {
  }

  /** Filling the screen shows the blank grid. */
  lemma ClearedShows(a: bytes, b: bytes, style: Style, mode: Mode)
    requires ValidFont(style.font) && Holds(a, mode) && Holds(b, mode)
    requires FilledLines(a, b, mode, 0, mode.height, 0, style.bg)
    ensures GridOk(ClearGrid(Cols(mode), Rows(mode)), Cols(mode), Rows(mode))
    ensures Shows(b, style, mode, ClearGrid(Cols(mode), Rows(mode)))
  {
    hide Pixel, Shade;
    BlankShade(style, mode, 0, 0);
    forall x, y | OnScreen(mode, x, y) ensures ShowsAt(b, style, mode, ClearGrid(Cols(mode), Rows(mode)), x, y) {
      BlankShade(style, mode, x, y);
      assert FilledAt(a, b, mode, 0, mode.height, 0, style.bg, x, y);
    }
  }

  function SetCell(g: Grid, c: int): Grid
    requires g.y < |g.cells| && g.x < |g.cells[g.y]|
  {
    Grid(g.cells[g.y := g.cells[g.y][g.x := Glyph(c)]], g.x + 1, g.y)
  }

  lemma GlyphShade(style: Style, mode: Mode, g: Grid, c: int, x: nat, y: nat)
    requires ValidFont(style.font) && GridOk(g, Cols(mode), Rows(mode))
    requires Rows(mode) > 0 && g.x < Cols(mode) && Printable(c)
    ensures g.y < |g.cells| && g.x < |g.cells[g.y]| && GridOk(SetCell(g, c), Cols(mode), Rows(mode))
    ensures Shade(style, mode, SetCell(g, c), x, y)
            == if InGlyph(g.x * CHAR_W, g.y * CHAR_H, x, y)
               then GlyphColor(style, c, y - g.y * CHAR_H, x - g.x * CHAR_W) else Shade(style, mode, g, x, y)
  {
    hide GlyphColor;
    assert g.cells[g.y] in g.cells;
    CellOf(x, g.x, CHAR_W);
    CellOf(y, g.y, CHAR_H);
  }

  /** A position is in a cell exactly when its quotient is the cell's number. */
  lemma CellOf(x: nat, cell: nat, size: nat)
    requires size == CHAR_W || size == CHAR_H
    ensures cell * size <= x < cell * size + size <==> x / size == cell
    ensures x / size == cell ==> x % size == x - cell * size
  {
  }

  /** Drawing a glyph at the cursor puts its character in the cursor's cell. */
  lemma DrawnShows(a: bytes, b: bytes, style: Style, mode: Mode, g: Grid, c: int)
    requires ValidFont(style.font) && GridOk(g, Cols(mode), Rows(mode)) && Holds(a, mode) && Holds(b, mode)
    requires Rows(mode) > 0 && g.x < Cols(mode) && Printable(c) && Shows(a, style, mode, g)
    requires DrawnGlyph(a, b, style, mode, g.x * CHAR_W, g.y * CHAR_H, c, CHAR_H, 0)
    ensures g.y < |g.cells| && g.x < |g.cells[g.y]| && GridOk(SetCell(g, c), Cols(mode), Rows(mode))
    ensures Shows(b, style, mode, SetCell(g, c))
  {
    hide Pixel, Shade, GlyphColor, GridOk, ValidFont;
    GlyphShade(style, mode, g, c, 0, 0);
    forall x, y | OnScreen(mode, x, y) ensures ShowsAt(b, style, mode, SetCell(g, c), x, y) {
      GlyphShade(style, mode, g, c, x, y);
      assert DrawnAt(a, b, style, mode, g.x * CHAR_W, g.y * CHAR_H, c, CHAR_H, 0, x, y);
      assert ShowsAt(a, style, mode, g, x, y);
    }
  }

  lemma ScrolledShade(style: Style, mode: Mode, g: Grid, cx: nat, cy: u32, x: nat, y: nat)
    requires ValidFont(style.font) && GridOk(g, Cols(mode), Rows(mode)) && Rows(mode) > 0
    requires cx <= Cols(mode) && cy < Rows(mode) && y < mode.height
    ensures var s := Grid(ScrollUp(g.cells, Cols(mode)), cx, cy);
            && GridOk(s, Cols(mode), Rows(mode))
            && Shade(style, mode, s, x, y)
               == if y < mode.height - CHAR_H then Shade(style, mode, g, x, y + CHAR_H) else style.bg
  {
    hide GlyphColor;
    var s := Grid(ScrollUp(g.cells, Cols(mode)), cx, cy);
    var row := y / CHAR_H;
    assert (y + CHAR_H) / CHAR_H == row + 1 && (y + CHAR_H) % CHAR_H == y % CHAR_H;
    if row + 1 < Rows(mode) {
      assert s.cells[row] == g.cells[row + 1];
    } else if row + 1 == Rows(mode) {
      assert s.cells[row] == BlankLine(Cols(mode));
    }
  }

  /** Moving every line up by a character's height and blanking the lines at the bottom is one
      text row of scrolling, also when the height is no multiple of a character's. */
  lemma ScrolledShows(a: bytes, m: bytes, b: bytes, style: Style, mode: Mode, g: Grid, cx: nat, cy: u32)
    requires ValidFont(style.font) && GridOk(g, Cols(mode), Rows(mode)) && Rows(mode) > 0
    requires cx <= Cols(mode) && cy < Rows(mode)
    requires Holds(a, mode) && Holds(m, mode) && Holds(b, mode) && Shows(a, style, mode, g)
    requires mode.height >= CHAR_H && MovedUp(a, m, mode, CHAR_H, mode.height - CHAR_H)
    requires FilledLines(m, b, mode, mode.height - CHAR_H, mode.height, 0, style.bg)
    ensures var s := Grid(ScrollUp(g.cells, Cols(mode)), cx, cy);
            GridOk(s, Cols(mode), Rows(mode)) && Shows(b, style, mode, s)
  {
    hide Pixel, Shade, ValidFont;
    ScrolledShade(style, mode, g, cx, cy, 0, 0);
    var s := Grid(ScrollUp(g.cells, Cols(mode)), cx, cy);
    forall x, y | OnScreen(mode, x, y) ensures ShowsAt(b, style, mode, s, x, y) {
      ScrolledShade(style, mode, g, cx, cy, x, y);
      assert FilledAt(m, b, mode, mode.height - CHAR_H, mode.height, 0, style.bg, x, y);
      assert MovedAt(a, m, mode, CHAR_H, mode.height - CHAR_H, x, y);
      if y < mode.height - CHAR_H {
        assert ShowsAt(a, style, mode, g, x, y + CHAR_H);
      }
    }
  }

  // ---------------------------------------------------------------------
  // The console
  // ---------------------------------------------------------------------

  class FbConsole {
    const fb: array<byte>
    const mode: Mode
    const style: Style
    var cursorX: u32
    var cursorY: u32
    ghost var grid: Grid

    ghost predicate Drawable()
      reads this, fb
    {
      Holds(fb[..], mode) && ValidFont(style.font)
    }

    /** The buffer shows the grid, and the cursor fields are the grid's. */
    ghost predicate Valid()
      reads this, fb
    {
      && Drawable()
      && GridOk(grid, Cols(mode), Rows(mode))
      && Shows(fb[..], style, mode, grid)
      && cursorX == grid.x && cursorY == grid.y
    }

    /** Init over a framebuffer with any contents; it clears the screen. */
    constructor (fb: array<byte>, mode: Mode, style: Style)
      requires Holds(fb[..], mode) && ValidFont(style.font)
      modifies fb
      ensures Valid() && this.fb == fb && this.mode == mode && this.style == style
      ensures grid == ClearGrid(Cols(mode), Rows(mode))
      ensures SamePadding(old(fb[..]), fb[..], mode)
    {
      this.fb, this.mode, this.style := fb, mode, style;
      cursorX, cursorY := 0, 0;
      grid := ClearGrid(Cols(mode), Rows(mode));
      new;
      FillFrom(0, style.bg);
      ClearedShows(old(fb[..]), fb[..], style, mode);
    }

    method PutPixel(x: nat, y: nat, rgb: u32)
      requires Drawable()
      modifies fb
      ensures Drawable() && SamePadding(old(fb[..]), fb[..], mode)
      ensures PaintedPixel(old(fb[..]), fb[..], mode, x, y, rgb)
    {
      hide Pixel, Padding;
      if x >= mode.width || y >= mode.height { return; }
      hide Row;
      WritePixelEffect(fb[..], mode, x, y, rgb);
      RowsApart(mode, y, y);
      ghost var b := WriteLine(fb[..], mode, y, PIXEL_BYTES * x, ColorBytes(rgb));
      var offset := Row(mode, y) + x * PIXEL_BYTES;
      StoreBytes(offset, ColorBytes(rgb));
      assert fb[..] == b;
    }

    /** The four bytes of a pixel. */
    method StoreBytes(offset: nat, data: bytes)
      requires |data| == PIXEL_BYTES && offset + PIXEL_BYTES <= fb.Length
      modifies fb
      ensures fb[..] == Overlay(old(fb[..]), offset, data)
    {
      fb[offset] := data[0];
      fb[offset + 1] := data[1];
      fb[offset + 2] := data[2];
      fb[offset + 3] := data[3];
    }

    /** The nested loops that paint every pixel from a line down. */
    method FillFrom(from: nat, rgb: u32)
      requires Drawable() && from <= mode.height
      modifies fb
      ensures Drawable() && SamePadding(old(fb[..]), fb[..], mode)
      ensures FilledLines(old(fb[..]), fb[..], mode, from, mode.height, 0, rgb)
    {
      hide Pixel, Padding, Holds, ValidFont;
      for y := from to mode.height
        invariant Drawable() && SamePadding(old(fb[..]), fb[..], mode)
        invariant FilledLines(old(fb[..]), fb[..], mode, from, y, 0, rgb)
      {
        for x := 0 to mode.width
          invariant Drawable() && SamePadding(old(fb[..]), fb[..], mode)
          invariant FilledLines(old(fb[..]), fb[..], mode, from, y, x, rgb)
        {
          ghost var before := fb[..];
          PutPixel(x, y, rgb);
          FillOne(old(fb[..]), before, fb[..], mode, from, y, x, rgb);
        }
        FillLineDone(old(fb[..]), fb[..], mode, from, y, rgb);
      }
    }

    /** DrawGlyph: 16 scan lines of 8 pixels, foreground where the font has a bit. */
    method DrawGlyph(px: nat, py: nat, c: int)
      requires Drawable()
      modifies fb
      ensures Drawable() && SamePadding(old(fb[..]), fb[..], mode)
      ensures DrawnGlyph(old(fb[..]), fb[..], style, mode, px, py, c, CHAR_H, 0)
    {
      hide Pixel, Padding, Holds, ValidFont;
      for row := 0 to CHAR_H
        invariant Drawable() && SamePadding(old(fb[..]), fb[..], mode)
        invariant DrawnGlyph(old(fb[..]), fb[..], style, mode, px, py, c, row, 0)
      {
        for col := 0 to CHAR_W
          invariant Drawable() && SamePadding(old(fb[..]), fb[..], mode)
          invariant DrawnGlyph(old(fb[..]), fb[..], style, mode, px, py, c, row, col)
        {
          ghost var before := fb[..];
          PutPixel(px + col, py + row, GlyphColor(style, c, row, col));
          DrawOne(old(fb[..]), before, fb[..], style, mode, px, py, c, row, col);
        }
        DrawLineDone(old(fb[..]), fb[..], style, mode, px, py, c, row);
      }
    }

    /** The ascending copy loop; the destination lies before the source. */
    method CopyBytes(dst: nat, src: nat, n: nat)
      requires dst + n <= src && src + n <= fb.Length
      modifies fb
      ensures fb[..] == Overlay(old(fb[..]), dst, old(fb[src..src + n]))
    {
      ghost var before := fb[..];
      ghost var source := before[src..src + n];
      for x := 0 to n
        invariant fb[..] == Overlay(before, dst, source[..x])
      {
        OverlayAt(before, dst, source[..x], src + x);
        fb[dst + x] := fb[src + x];
        OverlayNext(before, dst, source, x, fb[..]);
      }
      assert source[..n] == source;
    }

    /** Pixel bytes of line y + shift over line y, with padding left alone. */
    method CopyLine(y: nat, shift: nat, ghost first: bytes)
      requires Drawable() && Holds(first, mode) && shift > 0 && y + shift < mode.height
      requires MovedUp(first, fb[..], mode, shift, y)
      modifies fb
      ensures Drawable() && SamePadding(old(fb[..]), fb[..], mode)
      ensures MovedUp(first, fb[..], mode, shift, y + 1)
    {
      hide Pixel, Padding, Row, SamePadding, MovedUp, Overlay;
      RowsApart(mode, y, y + shift);
      RowsApart(mode, y + shift, y + shift);
      ghost var before := fb[..];
      CopyBytes(Row(mode, y), Row(mode, y + shift), mode.width * PIXEL_BYTES);
      CopyLineEffect(first, before, mode, shift, y, fb[..]);
    }

    /** ScrollIfNeeded, for a cursor row already advanced; the grid is the one before. */
    method ScrollIfNeeded()
      requires Drawable() && GridOk(grid, Cols(mode), Rows(mode)) && Shows(fb[..], style, mode, grid)
      requires cursorX == 0 && cursorY == Wrap32(grid.y + 1)
      modifies this, fb
      ensures Valid() && grid == NewLine(old(grid), Cols(mode), Rows(mode))
      ensures SamePadding(old(fb[..]), fb[..], mode)
    {
      hide Pixel, Padding, Shade, ShowsAt, ValidFont;
      var rows := Rows(mode);
      if rows == 0 || cursorY < rows {
        SameShade(fb[..], style, mode, grid, NewLine(grid, Cols(mode), rows));
        grid := NewLine(grid, Cols(mode), rows);
        return;
      }
      var copyHeight := mode.height - CHAR_H;
      ghost var first := fb[..];
      NothingMoved(first, mode, CHAR_H);
      for y := 0 to copyHeight
        invariant Drawable() && SamePadding(first, fb[..], mode)
        invariant MovedUp(first, fb[..], mode, CHAR_H, y)
        invariant grid == old(grid) && cursorX == 0
      {
        CopyLine(y, CHAR_H, first);
      }
      ghost var moved := fb[..];
      FillFrom(copyHeight, style.bg);
      ScrolledShows(first, moved, fb[..], style, mode, grid, 0, rows - 1);
      cursorY := rows - 1;
      grid := NewLine(grid, Cols(mode), rows);
    }

    method StartLine()
      requires Valid()
      modifies this, fb
      ensures Valid() && grid == NewLine(old(grid), Cols(mode), Rows(mode))
      ensures SamePadding(old(fb[..]), fb[..], mode)
    {
      cursorX := 0;
      var next: int := cursorY;
      cursorY := Wrap32(next + 1);
      ScrollIfNeeded();
    }

    method PutChar(c: int)
      requires Valid()
      modifies this, fb
      ensures Valid() && grid == TextGrid.PutChar(old(grid), Cols(mode), Rows(mode), c)
      ensures SamePadding(old(fb[..]), fb[..], mode)
    {
      hide Pixel, Padding, Shade, ShowsAt, ValidFont;
      if c == NEWLINE {
        StartLine();
        return;
      }
      if c == RETURN {
        SameShade(fb[..], style, mode, grid, Grid(grid.cells, 0, grid.y));
        grid := Grid(grid.cells, 0, grid.y);
        cursorX := 0;
        return;
      }
      var cols, rows := Cols(mode), Rows(mode);
      if cols == 0 || rows == 0 { return; }
      if cursorX >= cols {
        NewLineKeepsGrid(grid, cols, rows);
        StartLine();
      }
      if Printable(c) {
        ghost var before := fb[..];
        DrawGlyph(cursorX * CHAR_W, cursorY * CHAR_H, c);
        DrawnShows(before, fb[..], style, mode, grid, c);
        grid := SetCell(grid, c);
        var x: int := cursorX;
        cursorX := x + 1;
      }
    }

    /** Write, for a string that ends at its first NUL: the screen shows the grid model's text,
        and padding bytes never change. */
    method Write(text: seq<int>)
      requires Valid() && 0 in text
      modifies this, fb
      ensures Valid() && SamePadding(old(fb[..]), fb[..], mode)
      ensures exists n: nat :: n < |text| && text[n] == 0 && 0 !in text[..n]
                && grid == TextGrid.Write(old(grid), Cols(mode), Rows(mode), text[..n])
    {
      hide Shows, Padding, ValidFont, GridOk, SamePadding, Holds, TextGrid.PutChar;
      var p := 0;
      assert SamePadding(fb[..], fb[..], mode) by { PaddingRefl(fb[..], mode); }
      while text[p] != 0
        invariant p < |text| && 0 !in text[..p] && 0 in text[p..]
        invariant Valid() && SamePadding(old(fb[..]), fb[..], mode)
        invariant grid == TextGrid.Write(old(grid), Cols(mode), Rows(mode), text[..p])
        decreases |text| - p
      {
        ghost var before := fb[..];
        PutChar(text[p]);
        SamePaddingTrans(old(fb[..]), before, fb[..], mode);
        assert text[..p + 1][..p] == text[..p];
        assert text[p..] == [text[p]] + text[p + 1..];
        p := p + 1;
      }
    }

    method Clear()
      requires Valid()
      modifies this, fb
      ensures Valid() && grid == ClearGrid(Cols(mode), Rows(mode))
      ensures SamePadding(old(fb[..]), fb[..], mode)
    {
      FillFrom(0, style.bg);
      ClearedShows(old(fb[..]), fb[..], style, mode);
      cursorX, cursorY := 0, 0;
      grid := ClearGrid(Cols(mode), Rows(mode));
    }
  }

  lemma DrawOne(a: bytes, b: bytes, d: bytes, style: Style, mode: Mode, px: nat, py: nat, c: int, row: nat, col: nat)
    requires Holds(a, mode) && Holds(b, mode) && Holds(d, mode) && ValidFont(style.font)
    requires row < CHAR_H && col < CHAR_W
    requires DrawnGlyph(a, b, style, mode, px, py, c, row, col)
    requires PaintedPixel(b, d, mode, px + col, py + row, GlyphColor(style, c, row, col))
    ensures DrawnGlyph(a, d, style, mode, px, py, c, row, col + 1)
  {
    hide Pixel, GlyphColor, ValidFont;
    forall u, v | OnScreen(mode, u, v) ensures DrawnAt(a, d, style, mode, px, py, c, row, col + 1, u, v) {
      assert DrawnAt(a, b, style, mode, px, py, c, row, col, u, v);
      assert PaintedAt(b, d, mode, px + col, py + row, GlyphColor(style, c, row, col), u, v);
    }
  }

  lemma DrawLineDone(a: bytes, b: bytes, style: Style, mode: Mode, px: nat, py: nat, c: int, row: nat)
    requires Holds(a, mode) && Holds(b, mode) && ValidFont(style.font) && row < CHAR_H
    requires DrawnGlyph(a, b, style, mode, px, py, c, row, CHAR_W)
    ensures DrawnGlyph(a, b, style, mode, px, py, c, row + 1, 0)
  {
    hide Pixel, GlyphColor, ValidFont;
    forall u, v | OnScreen(mode, u, v) ensures DrawnAt(a, b, style, mode, px, py, c, row + 1, 0, u, v) {
      assert DrawnAt(a, b, style, mode, px, py, c, row, CHAR_W, u, v);
    }
  }

  /** One more byte of an ascending copy. */
  lemma OverlayNext(before: bytes, dst: nat, source: bytes, x: nat, after: bytes)
    requires x < |source| && dst + |source| <= |before|
    requires after == Overlay(before, dst, source[..x])[dst + x := source[x]]
    ensures after == Overlay(before, dst, source[..x + 1])
  {
    assert source[..x + 1] == source[..x] + [source[x]];
  }

  lemma PaddingRefl(a: bytes, mode: Mode)
    requires Holds(a, mode)
    ensures SamePadding(a, a, mode)
  {
  }

  lemma NothingMoved(a: bytes, mode: Mode, shift: nat)
    requires Holds(a, mode) && shift <= mode.height
    ensures MovedUp(a, a, mode, shift, 0)
  {
    hide Pixel;
    forall u, v | OnScreen(mode, u, v) ensures MovedAt(a, a, mode, shift, 0, u, v) {}
  }

  /** The cursor is not drawn. */
  lemma SameShade(buf: bytes, style: Style, mode: Mode, g: Grid, h: Grid)
    requires ValidFont(style.font) && GridOk(g, Cols(mode), Rows(mode)) && GridOk(h, Cols(mode), Rows(mode))
    requires Holds(buf, mode) && Shows(buf, style, mode, g) && g.cells == h.cells
    ensures Shows(buf, style, mode, h)
  {
    hide Pixel;
    forall x, y | OnScreen(mode, x, y) ensures ShowsAt(buf, style, mode, h, x, y) {
      assert ShowsAt(buf, style, mode, g, x, y);
    }
  }

  lemma FillOne(a: bytes, b: bytes, c: bytes, mode: Mode, from: nat, y: nat, x: nat, rgb: u32)
    requires Holds(a, mode) && Holds(b, mode) && Holds(c, mode) && from <= y
    requires FilledLines(a, b, mode, from, y, x, rgb) && PaintedPixel(b, c, mode, x, y, rgb)
    ensures FilledLines(a, c, mode, from, y, x + 1, rgb)
  {
    hide Pixel;
    forall u, v | OnScreen(mode, u, v) ensures FilledAt(a, c, mode, from, y, x + 1, rgb, u, v) {
      assert FilledAt(a, b, mode, from, y, x, rgb, u, v) && PaintedAt(b, c, mode, x, y, rgb, u, v);
    }
  }

  lemma FillLineDone(a: bytes, b: bytes, mode: Mode, from: nat, y: nat, rgb: u32)
    requires Holds(a, mode) && Holds(b, mode) && from <= y
    requires FilledLines(a, b, mode, from, y, mode.width, rgb)
    ensures FilledLines(a, b, mode, from, y + 1, 0, rgb)
  {
    hide Pixel;
    forall u, v | OnScreen(mode, u, v) ensures FilledAt(a, b, mode, from, y + 1, 0, rgb, u, v) {
      assert FilledAt(a, b, mode, from, y, mode.width, rgb, u, v);
    }
  }
}
