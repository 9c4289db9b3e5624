/** The grid as a window on everything written. */
module ConsoleText {
  import opened Wrappers
  import opened Images
  import opened Pixels
  import opened Framebuffer
  import opened ConsoleModel
  import opened ConsoleDrawing

  // ---------------------------------------------------------------- an unbounded page

  /** All lines there have been so far, and the cursor on one of the last `rows` of them. */
  datatype Page = Page(lines: seq<seq<Cell>>, y: nat, x: nat)

  /** The first line that is still on the screen. */
  function Top(p: Page, rows: nat): nat {
    if |p.lines| <= rows then 0 else |p.lines| - rows
  }

  ghost predicate PageOk(p: Page, rows: nat, columns: nat) {
    && rows > 0 && p.x < columns && Top(p, rows) <= p.y < |p.lines|
    && forall l :: 0 <= l < |p.lines| ==> |p.lines[l]| == columns
  }

  function BlankLine(columns: nat): (line: seq<Cell>)
    ensures |line| == columns && forall k :: 0 <= k < columns ==> line[k] == EMPTY
  {
    seq(columns, _ => EMPTY)
  }

  function NewPage(columns: nat): Page {
    Page([BlankLine(columns)], 0, 0)
  }

  /** To the start of the line below, a new one at the end of the page. */
  function NextLine(p: Page, rows: nat, columns: nat): (q: Page)
    requires PageOk(p.(x := 0), rows, columns)
    ensures PageOk(q, rows, columns)
  {
    if p.y + 1 < |p.lines| then Page(p.lines, p.y + 1, 0) else Page(p.lines + [BlankLine(columns)], p.y + 1, 0)
  }

  function OnPage(p: Page, rows: nat, columns: nat, cell: Cell): (q: Page)
    requires PageOk(p, rows, columns)
    ensures PageOk(q, rows, columns)
  {
    var written := Page(p.lines[p.y := p.lines[p.y][p.x := cell]], p.y, p.x);
    if p.x + 1 == columns then NextLine(written, rows, columns) else written.(x := p.x + 1)
  }

  /** One cell back, from the start of a line to the end of the one above if that is still on the screen. */
  function Erase(p: Page, rows: nat, columns: nat): (q: Page)
    requires PageOk(p, rows, columns)
    ensures PageOk(q, rows, columns)
  {
    if p.x > 0 then Page(p.lines[p.y := p.lines[p.y][p.x - 1 := EMPTY]], p.y, p.x - 1)
    else if p.y > Top(p, rows) then
      Page(p.lines[p.y - 1 := p.lines[p.y - 1][columns - 1 := EMPTY]], p.y - 1, columns - 1)
    else p
  }

  /** Wrapping layout of any byte on the page; bytes without a meaning leave it as it is. */
  function Lay(p: Page, rows: nat, columns: nat, ch: Octet, foreground: Color, background: Color): (q: Page)
    requires PageOk(p, rows, columns)
    ensures PageOk(q, rows, columns)
  {
    if 0x20 <= ch < 0x7f then OnPage(p, rows, columns, Cell(ch, foreground, background))
    else if ch == 8 then Erase(p, rows, columns)
    else if ch == 9 then
      var next := p.x - p.x % TAB_SIZE + TAB_SIZE;
      if next < columns then p.(x := next) else NextLine(p, rows, columns)
    else if ch == 10 then NextLine(p, rows, columns)
    else if ch == 13 then p.(x := 0)
    else p
  }

  function LayAll(p: Page, rows: nat, columns: nat, text: seq<Octet>, foreground: Color, background: Color): (q: Page)
    requires PageOk(p, rows, columns)
    ensures PageOk(q, rows, columns)
  {
    if text == [] then p
    else Lay(LayAll(p, rows, columns, text[..|text| - 1], foreground, background), rows, columns, text[|text| - 1],
             foreground, background)
  }

  /** The grid shows the last `rows` lines of the page, blank below them, and the cursor is at the same place. */
  ghost predicate Shows(c: Con, p: Page)
    requires Ok(c) && PageOk(p, c.rows, c.columns)
  {
    && c.x == p.x && c.y == p.y - Top(p, c.rows)
    && forall r, k {:trigger c.grid[r][k]} :: 0 <= r < c.rows && 0 <= k < c.columns ==>
         c.grid[r][k] == if Top(p, c.rows) + r < |p.lines| then p.lines[Top(p, c.rows) + r][k] else EMPTY
  }

  lemma SameCursor(c: Con, p: Page)
    requires Ok(c) && PageOk(p, c.rows, c.columns) && Shows(c, p)
    ensures c.x == p.x && c.y == p.y - Top(p, c.rows)
  {
  }

  lemma NewlineShows(v: Video, s: State, p: Page)
    requires Proper(v, s.(con := s.con.(x := 0))) && PageOk(p.(x := 0), s.con.rows, s.con.columns)
    requires Shows(s.con.(x := 0), p.(x := 0))
    ensures Shows(Newline(v, s).con, NextLine(p, s.con.rows, s.con.columns))
  {
    hide ScrollGrid, ScrolledUp;
    var q := NextLine(p, s.con.rows, s.con.columns);
    assert forall l :: 0 <= l < |p.lines| ==> q.lines[l] == p.lines[l];
  }

  lemma StoreShows(c: Con, p: Page, row: nat, column: nat, cell: Cell)
    requires Ok(c) && PageOk(p, c.rows, c.columns) && Shows(c, p)
    requires row < c.rows && column < c.columns && Top(p, c.rows) + row < |p.lines|
    ensures var l := Top(p, c.rows) + row;
            Shows(c.(grid := SetCell(c.grid, row, column, cell)),
                  p.(lines := p.lines[l := p.lines[l][column := cell]]))
  {
    hide SetCell;
  }

  /** Going on to the next column, or to the next line. */
  lemma AdvanceShows(v: Video, s: State, p: Page)
    requires Proper(v, s) && PageOk(p, s.con.rows, s.con.columns) && Shows(s.con, p)
    ensures var ahead := s.(con := s.con.(x := s.con.x + 1));
            if s.con.x + 1 >= s.con.columns
            then Shows(Newline(v, ahead).con, NextLine(p, s.con.rows, s.con.columns))
            else Shows(ahead.con, p.(x := p.x + 1))
  {
    hide Newline, NextLine;
    if s.con.x + 1 >= s.con.columns {
      NewlineShows(v, s.(con := s.con.(x := s.con.x + 1)), p);
    }
  }

  lemma WriteCellShows(v: Video, s: State, p: Page, ch: Octet)
    requires Proper(v, s) && PageOk(p, s.con.rows, s.con.columns) && Shows(s.con, p)
    ensures Shows(WriteCell(v, s, ch).con,
                  OnPage(p, s.con.rows, s.con.columns, Cell(ch, s.con.foreground, s.con.background)))
  {
    hide RenderCell, SetCell, Newline, NextLine, Shows;
    var cell := Cell(ch, s.con.foreground, s.con.background);
    var written := p.(lines := p.lines[p.y := p.lines[p.y][p.x := cell]]);
    var c := s.con.(grid := SetCell(s.con.grid, s.con.y, s.con.x, cell));
    SameCursor(s.con, p);
    StoreShows(s.con, p, s.con.y, s.con.x, cell);
    AdvanceShows(v, State(c, RenderCell(s.img, v, c, c.y, c.x)), written);
  }

  function Stored(c: Con, row: nat, column: nat): (d: Con)
    requires Ok(c) && row < c.rows && column < c.columns
    ensures Ok(d)
  {
    c.(grid := SetCell(c.grid, row, column, EMPTY))
  }

  /** The cursor of both goes to the same cell. */
  lemma MovedShows(c: Con, p: Page, row: nat, column: nat)
    requires Ok(c) && PageOk(p, c.rows, c.columns) && Shows(c, p)
    requires row < c.rows && column < c.columns && Top(p, c.rows) + row < |p.lines|
    ensures Shows(c.(x := column, y := row), p.(x := column, y := Top(p, c.rows) + row))
  {
  }

  lemma BackspaceShows(v: Video, s: State, p: Page)
    requires Proper(v, s) && PageOk(p, s.con.rows, s.con.columns) && Shows(s.con, p)
    ensures Shows(Backspace(v, s).con, Erase(p, s.con.rows, s.con.columns))
  {
    hide RenderCell, SetCell, Shows;
    SameCursor(s.con, p);
    if s.con.x > 0 {
      StoreShows(s.con, p, s.con.y, s.con.x - 1, EMPTY);
      MovedShows(Stored(s.con, s.con.y, s.con.x - 1), p.(lines := p.lines[p.y := p.lines[p.y][p.x - 1 := EMPTY]]),
                 s.con.y, s.con.x - 1);
    } else if s.con.y > 0 {
      var l := p.y - 1;
      StoreShows(s.con, p, s.con.y - 1, s.con.columns - 1, EMPTY);
      MovedShows(Stored(s.con, s.con.y - 1, s.con.columns - 1),
                 p.(lines := p.lines[l := p.lines[l][s.con.columns - 1 := EMPTY]]), s.con.y - 1, s.con.columns - 1);
    }
  }

  lemma PutCharShows(v: Video, s: State, p: Page, ch: Octet)
    requires Proper(v, s) && PageOk(p, s.con.rows, s.con.columns) && Shows(s.con, p)
    ensures Shows(PutChar(v, s, ch).con, Lay(p, s.con.rows, s.con.columns, ch, s.con.foreground, s.con.background))
  {
    hide WriteCell, Backspace, Newline, OnPage, Erase, NextLine;
    if Printable(ch) {
      WriteCellShows(v, s, p, ch);
    } else if ch == 8 {
      BackspaceShows(v, s, p);
    } else {
      NewlineShows(v, s, p);
      assert s.con.x - s.con.x % TAB_SIZE + TAB_SIZE == (s.con.x / TAB_SIZE + 1) * TAB_SIZE;
    }
  }

  /** Whatever bytes are written, the screen goes on showing the page they are laid out on. */
  lemma {:induction false} TextShows(v: Video, s: State, p: Page, text: seq<Octet>)
    requires Proper(v, s) && PageOk(p, s.con.rows, s.con.columns) && Shows(s.con, p)
    ensures var t := WriteStr(v, s, text);
            && t.con.columns == s.con.columns && t.con.rows == s.con.rows
            && t.con.foreground == s.con.foreground && t.con.background == s.con.background
            && Shows(t.con, LayAll(p, s.con.rows, s.con.columns, text, s.con.foreground, s.con.background))
  {
    hide PutChar, Lay, Shows;
    if text != [] {
      var before, ch := text[..|text| - 1], text[|text| - 1];
      TextShows(v, s, p, before);
      var t := WriteStr(v, s, before);
      PutCharShows(v, t, LayAll(p, s.con.rows, s.con.columns, before, s.con.foreground, s.con.background), ch);
      PutCharKeepsSettings(v, t, ch);
    }
  }

  lemma ClearedShows(v: Video, s: State)
    requires Proper(v, s) && s.con.rows > 0 && s.con.columns > 0
    ensures Shows(Cleared(v, s).con, NewPage(s.con.columns))
  {
    hide EmptyGrid, FillRect;
  }

  /** After any bytes at all on a cleared console the screen is the tail of them laid out on an unbounded page. */
  lemma ScreenIsWindowOnText(v: Video, s: State, text: seq<Octet>)
    requires Proper(v, s) && s.con.rows > 0 && s.con.columns > 0
    ensures var t := WriteStr(v, Cleared(v, s), text);
            && t.con.columns == s.con.columns && t.con.rows == s.con.rows
            && t.con.foreground == s.con.foreground && t.con.background == s.con.background
            && Shows(t.con, LayAll(NewPage(s.con.columns), s.con.rows, s.con.columns, text,
                                   s.con.foreground, s.con.background))
  {
    hide Shows, LayAll, WriteStr, EmptyGrid, FillRect;
    ClearedShows(v, s);
    TextShows(v, Cleared(v, s), NewPage(s.con.columns), text);
  }
}
