/** What a framebuffer console shows: a grid of character cells with a cursor, and the
    unbounded page of text it is a window on. */
module TextGrid {
  import opened Words

  const CHAR_W := 8
  const CHAR_H := 16
  const NEWLINE := 10
  const RETURN := 13

  datatype Cell = Blank | Glyph(c: int)

  type Line = seq<Cell>

  datatype Grid = Grid(cells: seq<Line>, x: nat, y: u32)

  predicate Printable(c: int) { 32 <= c <= 126 }

  function BlankLine(cols: nat): Line { seq(cols, _ => Blank) }

  /** Rows are full, the cursor is on a row and at most one past the last column. With no
      row at all the row number only counts. */
  ghost predicate GridOk(g: Grid, cols: nat, rows: nat) {
    && |g.cells| == rows && (forall l <- g.cells :: |l| == cols)
    && g.x <= cols && (rows > 0 ==> g.y < rows)
  }

  function ClearGrid(cols: nat, rows: nat): Grid { Grid(seq(rows, _ => BlankLine(cols)), 0, 0) }

  /** All rows up by one, a blank row at the bottom. */
  function ScrollUp(cells: seq<Line>, cols: nat): seq<Line>
    requires cells != []
  {
    cells[1..] + [BlankLine(cols)]
  }

  function NewLine(g: Grid, cols: nat, rows: nat): Grid
    requires |g.cells| == rows
  {
    var y := Wrap32(g.y + 1);
    if rows == 0 || y < rows then Grid(g.cells, 0, y)
    else Grid(ScrollUp(g.cells, cols), 0, rows - 1)
  }

  /** A character at the cursor; writing past the last column first starts a new line. */
  function PutChar(g: Grid, cols: nat, rows: u32, c: int): Grid
    requires GridOk(g, cols, rows)
  {
    if c == NEWLINE then NewLine(g, cols, rows) else
    if c == RETURN then Grid(g.cells, 0, g.y) else
    if cols == 0 || rows == 0 then g else
    var h := if g.x >= cols then NewLine(g, cols, rows) else g;
    NewLineKeepsGrid(g, cols, rows);
    if Printable(c) then Grid(h.cells[h.y := h.cells[h.y][h.x := Glyph(c)]], h.x + 1, h.y) else h
  }

  lemma NewLineKeepsGrid(g: Grid, cols: nat, rows: u32)
    requires GridOk(g, cols, rows)
    ensures GridOk(NewLine(g, cols, rows), cols, rows) && NewLine(g, cols, rows).x == 0
  {
  }

  /** The cursor stays in the grid. */
  lemma PutCharKeepsGrid(g: Grid, cols: nat, rows: u32, c: int)
    requires GridOk(g, cols, rows)
    ensures GridOk(PutChar(g, cols, rows, c), cols, rows)
  {
    NewLineKeepsGrid(g, cols, rows);
  }

  /** Writing the characters of a string. */
  function Write(g: Grid, cols: nat, rows: u32, text: seq<int>): (r: Grid)
    requires GridOk(g, cols, rows)
    ensures GridOk(r, cols, rows)
  {
    if text == [] then g else
    var h := Write(g, cols, rows, text[..|text| - 1]);
    PutCharKeepsGrid(h, cols, rows, text[|text| - 1]);
    PutChar(h, cols, rows, text[|text| - 1])
  }

  /** A line feed moves the cursor to the start of the next row, or every row up by one when there is
      none; a carriage return only moves it to the start of its row; anything else that is not printable
      writes nothing. */
  lemma ControlCharacters(g: Grid, cols: nat, rows: u32, c: int)
    requires GridOk(g, cols, rows) && rows > 0
    ensures var h := PutChar(g, cols, rows, '\n' as int);
            && h.x == 0 && |h.cells| == rows && h.y == Min(g.y + 1, rows - 1)
            && (g.y + 1 < rows ==> h.cells == g.cells)
            && (g.y + 1 == rows ==>
                  && (forall r | 0 <= r < rows - 1 :: h.cells[r] == g.cells[r + 1])
                  && h.cells[rows - 1] == BlankLine(cols))
    ensures PutChar(g, cols, rows, '\r' as int) == Grid(g.cells, 0, g.y)
    ensures c != '\n' as int && c != '\r' as int && !(' ' as int <= c <= '~' as int) && g.x < cols ==>
              PutChar(g, cols, rows, c) == g
  {
  }

  /** The number of the cell in reading order. */
  function Place(row: nat, col: nat, cols: nat): nat { row * cols + col }

  function CellFor(text: seq<int>, i: nat): Cell { if i < |text| then Glyph(text[i]) else Blank }

  /** The grid holds the text in reading order and nothing else, the cursor is after it. */
  ghost predicate Typed(g: Grid, cols: nat, rows: nat, text: seq<int>)
    requires GridOk(g, cols, rows)
  {
    && (forall r, k | 0 <= r < rows && 0 <= k < cols ::
          |g.cells[r]| == cols && g.cells[r][k] == CellFor(text, Place(r, k, cols)))
    && Place(g.y, g.x, cols) == |text|
  }

  /** Printable text that fits the screen, written from the home position: character i stands in the
      cell of row i / cols and column i % cols, and all other cells are blank. */
  lemma {:induction false} PlainText(cols: nat, rows: u32, text: seq<int>)
    requires cols > 0 && rows > 0 && |text| <= cols * rows
    requires forall c <- text :: ' ' as int <= c <= '~' as int
    ensures GridOk(ClearGrid(cols, rows), cols, rows)
    ensures Typed(Write(ClearGrid(cols, rows), cols, rows, text), cols, rows, text)
  {
    hide PutChar;
    if text != [] {
      var init, c := text[..|text| - 1], text[|text| - 1];
      assert c in text && forall d <- init :: d in text;
      PlainText(cols, rows, init);
      hide GridOk, Typed, ClearGrid;
      TypeOne(Write(ClearGrid(cols, rows), cols, rows, init), cols, rows, init, c);
      assert init + [c] == text;
    }
  }

  lemma TypeOne(g: Grid, cols: nat, rows: u32, text: seq<int>, c: int)
    requires GridOk(g, cols, rows) && Typed(g, cols, rows, text) && |text| < cols * rows
    requires ' ' as int <= c <= '~' as int
    ensures GridOk(PutChar(g, cols, rows, c), cols, rows)
    ensures Typed(PutChar(g, cols, rows, c), cols, rows, text + [c])
  {
    PutCharKeepsGrid(g, cols, rows, c);
    var y, x := CursorInside(g, cols, rows, |text|);
    var h := PutChar(g, cols, rows, c);
    assert h == Grid(g.cells[y := g.cells[y][x := Glyph(c)]], x + 1, y);
    forall r, k | 0 <= r < rows && 0 <= k < cols
      ensures |h.cells[r]| == cols && h.cells[r][k] == CellFor(text + [c], Place(r, k, cols))
    {
      PlaceUnique(r, k, y, x, cols);
      hide Place;
      assert g.cells[r][k] == CellFor(text, Place(r, k, cols));
    }
  }

  /** Where the next character goes. */
  lemma CursorInside(g: Grid, cols: nat, rows: u32, n: nat) returns (y: nat, x: nat)
    requires GridOk(g, cols, rows) && Place(g.y, g.x, cols) == n < cols * rows
    ensures y < rows && x < cols && Place(y, x, cols) == n
    ensures g.x < cols ==> (y, x) == (g.y, g.x)
    ensures g.x >= cols ==> (y, x) == (g.y + 1, 0)
  {
    y, x := g.y, g.x;
    if x >= cols {
      y, x := y + 1, 0;
    }
    Monotone(rows, y, cols);
  }

  lemma Monotone(a: nat, b: nat, c: nat)
    ensures a <= b ==> a * c <= b * c
  {
    if a <= b {
      assert b * c == a * c + (b - a) * c;
    }
  }

  lemma PlaceUnique(r: nat, k: nat, y: nat, x: nat, cols: nat)
    requires k < cols && x < cols
    ensures Place(r, k, cols) == Place(y, x, cols) <==> r == y && k == x
  {
    Monotone(r + 1, y, cols);
    Monotone(y + 1, r, cols);
  }

  /** The place of a cell, the other way round. */
  lemma PlaceOf(i: nat, cols: nat)
    requires cols > 0
    ensures Place(i / cols, i % cols, cols) == i
  {
  }

  // ---------------------------------------------------------------------
  // The page behind the window
  // ---------------------------------------------------------------------

  /** Text laid out on an endless page: nothing ever scrolls. */
  datatype Page = Page(lines: seq<Line>, x: nat, y: nat)

  function PageNewLine(p: Page, cols: nat): Page {
    Page(if p.y + 1 < |p.lines| then p.lines else p.lines + [BlankLine(cols)], 0, p.y + 1)
  }

  ghost predicate PageOk(p: Page, cols: nat, rows: nat) {
    && |p.lines| == Max(rows, p.y + 1) && (forall l <- p.lines :: |l| == cols) && p.x <= cols
  }

  function PagePutChar(p: Page, cols: nat, c: int): Page
    requires p.y < |p.lines| && forall l <- p.lines :: |l| == cols
  {
    if c == NEWLINE then PageNewLine(p, cols) else
    if c == RETURN then Page(p.lines, 0, p.y) else
    if cols == 0 then p else
    var q := if p.x >= cols then PageNewLine(p, cols) else p;
    assert q.lines[q.y] in q.lines;
    if Printable(c) && q.x < cols then Page(q.lines[q.y := q.lines[q.y][q.x := Glyph(c)]], q.x + 1, q.y) else q
  }

  /** The last `rows` lines of the page. */
  function Window(p: Page, rows: nat): Grid
    requires |p.lines| == Max(rows, p.y + 1) && 0 < rows < TWO_32
  {
    var top := |p.lines| - rows;
    Grid(p.lines[top..], p.x, p.y - top)
  }

  lemma PageNewLineOk(p: Page, cols: nat, rows: u32)
    requires rows > 0 && PageOk(p, cols, rows)
    ensures PageOk(PageNewLine(p, cols), cols, rows)
  {
  }

  lemma WindowNewLine(p: Page, cols: nat, rows: u32)
    requires rows > 0 && PageOk(p, cols, rows)
    ensures PageOk(PageNewLine(p, cols), cols, rows)
    ensures Window(PageNewLine(p, cols), rows) == NewLine(Window(p, rows), cols, rows)
  {
    PageNewLineOk(p, cols, rows);
    assert |p.lines| == Max(rows, p.y + 1);
    hide BlankLine, PageOk, Window, PageNewLine, NewLine;
    if p.y + 1 < |p.lines| {
      LineWithin(p, cols, rows);
    } else {
      LineScrolls(p, cols, rows);
    }
  }

  /** A line that the page already has: the window stays. */
  lemma LineWithin(p: Page, cols: nat, rows: u32)
    requires rows > 0 && |p.lines| == Max(rows, p.y + 1) && p.y + 1 < |p.lines|
    ensures Window(PageNewLine(p, cols), rows) == NewLine(Window(p, rows), cols, rows)
  {
    hide BlankLine;
    assert |p.lines| == rows && PageNewLine(p, cols) == Page(p.lines, 0, p.y + 1);
  }

  /** A new last line: the window moves down by one. */
  lemma LineScrolls(p: Page, cols: nat, rows: u32)
    requires rows > 0 && |p.lines| == Max(rows, p.y + 1) && p.y + 1 >= |p.lines|
    ensures |PageNewLine(p, cols).lines| == Max(rows, p.y + 2) && PageNewLine(p, cols).y == p.y + 1
    ensures Window(PageNewLine(p, cols), rows) == NewLine(Window(p, rows), cols, rows)
  {
    hide BlankLine;
    var q, w, top := PageNewLine(p, cols), Window(p, rows), |p.lines| - rows;
    assert w.cells == p.lines[top..] && w.y == rows - 1;
    DropOfAppended(p.lines, top, BlankLine(cols));
    assert NewLine(w, cols, rows) == Grid(ScrollUp(w.cells, cols), 0, rows - 1);
    assert Window(q, rows) == Grid(q.lines[top + 1..], 0, rows - 1);
  }

  lemma DropOfAppended(lines: seq<Line>, top: nat, l: Line)
    requires top < |lines|
    ensures (lines + [l])[top + 1..] == lines[top..][1..] + [l]
  {
  }

  /** One character: the grid stays the window on the page. */
  lemma WindowPutChar(p: Page, cols: nat, rows: u32, c: int)
    requires rows > 0 && PageOk(p, cols, rows)
    ensures GridOk(Window(p, rows), cols, rows)
    ensures PageOk(PagePutChar(p, cols, c), cols, rows)
    ensures Window(PagePutChar(p, cols, c), rows) == PutChar(Window(p, rows), cols, rows, c)
  {
    hide BlankLine, NewLine, PageNewLine, PageOk, GridOk, Window;
    WindowOk(p, cols, rows);
    WindowNewLine(p, cols, rows);
    WindowOk(PageNewLine(p, cols), cols, rows);
    WindowReturn(p, cols, rows);
    NewLineKeepsGrid(Window(p, rows), cols, rows);
    CursorFacts(p, cols, rows);
    if c != NEWLINE && c != RETURN && cols > 0 && Printable(c) {
      var q := if p.x >= cols then PageNewLine(p, cols) else p;
      WindowCell(q, cols, rows, c);
    }
  }

  lemma WindowOk(p: Page, cols: nat, rows: u32)
    requires rows > 0 && PageOk(p, cols, rows)
    ensures GridOk(Window(p, rows), cols, rows)
  {
    var top := |p.lines| - rows;
    forall l <- p.lines[top..] ensures |l| == cols { assert l in p.lines; }
  }

  lemma WindowReturn(p: Page, cols: nat, rows: u32)
    requires rows > 0 && PageOk(p, cols, rows)
    ensures PageOk(Page(p.lines, 0, p.y), cols, rows)
    ensures Window(Page(p.lines, 0, p.y), rows) == Grid(Window(p, rows).cells, 0, Window(p, rows).y)
  {
  }

  lemma CursorFacts(p: Page, cols: nat, rows: u32)
    requires rows > 0 && PageOk(p, cols, rows)
    ensures p.y < |p.lines| && (forall l <- p.lines :: |l| == cols) && p.x <= cols
    ensures Window(p, rows).x == p.x && PageNewLine(p, cols).x == 0
  {
  }

  lemma WindowCell(q: Page, cols: nat, rows: u32, c: int)
    requires rows > 0 && PageOk(q, cols, rows) && q.x < cols
    ensures q.lines[q.y] in q.lines
    ensures var r := Page(q.lines[q.y := q.lines[q.y][q.x := Glyph(c)]], q.x + 1, q.y);
            var h := Window(q, rows);
            && PageOk(r, cols, rows) && h.y < |h.cells| && h.x < |h.cells[h.y]|
            && Window(r, rows) == Grid(h.cells[h.y := h.cells[h.y][h.x := Glyph(c)]], h.x + 1, h.y)
  {
    var top := |q.lines| - rows;
    assert q.lines[q.y] in q.lines;
    assert q.lines[top..][q.y - top] == q.lines[q.y];
    var line := q.lines[q.y][q.x := Glyph(c)];
    assert q.lines[q.y := line][top..] == q.lines[top..][q.y - top := line];
  }

  /** Laying out a whole string on the page. */
  function PageWrite(p: Page, cols: nat, rows: u32, text: seq<int>): (r: Page)
    requires rows > 0 && PageOk(p, cols, rows)
    ensures PageOk(r, cols, rows)
  {
    if text == [] then p else
    var q := PageWrite(p, cols, rows, text[..|text| - 1]);
    WindowPutChar(q, cols, rows, text[|text| - 1]);
    PagePutChar(q, cols, text[|text| - 1])
  }

  /** For every string: scrolling loses nothing but the top of the page. The grid after
      writing is the last rows of the text laid out without scrolling. */
  lemma {:induction false} GridIsWindow(p: Page, cols: nat, rows: u32, text: seq<int>)
    requires rows > 0 && PageOk(p, cols, rows)
    ensures GridOk(Window(p, rows), cols, rows)
    ensures Window(PageWrite(p, cols, rows, text), rows) == Write(Window(p, rows), cols, rows, text)
  {
    WindowPutChar(p, cols, rows, RETURN);
    if text != [] {
      GridIsWindow(p, cols, rows, text[..|text| - 1]);
      WindowPutChar(PageWrite(p, cols, rows, text[..|text| - 1]), cols, rows, text[|text| - 1]);
    }
  }
}
