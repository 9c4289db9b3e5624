/** The text console as functions: cells, cursor, line buffer, and the picture drawn for them. */
module ConsoleModel {
  import opened Wrappers
  import opened Images
  import opened Pixels
  import opened Framebuffer

  const CHAR_WIDTH: nat := 8
  const CHAR_HEIGHT: nat := 16
  const TAB_SIZE: nat := 4
  const INPUT_SIZE: nat := 256
  const MAX_COLUMNS: nat := 1920 / CHAR_WIDTH
  const MAX_ROWS: nat := 1080 / CHAR_HEIGHT

  type Octet = n: nat | n < 256

  datatype Cell = Cell(character: Octet, foreground: Color, background: Color)

  const SPACE: Octet := 32
  const EMPTY := Cell(SPACE, WHITE, BLACK)

  /** MAX_ROWS rows of MAX_COLUMNS cells, of which the console shows the first `rows` and `columns`. */
  type Grid = seq<seq<Cell>>

  ghost predicate IsGrid(grid: Grid) {
    |grid| == MAX_ROWS && forall r :: 0 <= r < MAX_ROWS ==> |grid[r]| == MAX_COLUMNS
  }

  datatype Con = Con(columns: nat, rows: nat, x: nat, y: nat, foreground: Color, background: Color,
                     grid: Grid, input: seq<Octet>, inputLen: nat, lineReady: bool)

  /** The cursor is inside the grid, or at 0 where the grid has no column or no row. */
  ghost predicate Ok(c: Con) {
    && c.columns <= MAX_COLUMNS && c.rows <= MAX_ROWS && IsGrid(c.grid)
    && c.x < Max(c.columns, 1) && c.y < Max(c.rows, 1)
    && |c.input| == INPUT_SIZE && c.inputLen <= INPUT_SIZE
  }

  /** What the console draws on: size and pixel format of the screen, and which glyph pixels are set. */
  datatype Video = Video(width: nat, height: nat, format: Format, glyph: (Octet, nat, nat) -> bool)

  /** The console's grid is the part of the screen that whole characters fill. */
  predicate Fitted(v: Video, c: Con) {
    && c.columns * CHAR_WIDTH <= v.width
    && c.rows * CHAR_HEIGHT <= v.height < (c.rows + 1) * CHAR_HEIGHT
  }

  /** The console together with the backbuffer it has drawn. */
  datatype State = State(con: Con, img: Image)

  ghost predicate Proper(v: Video, s: State) {
    Ok(s.con) && Fitted(v, s.con) && IsImage(s.img, v.width, v.height)
  }

  // ---------------------------------------------------------------- cells

  function SetCell(grid: Grid, row: nat, column: nat, cell: Cell): (r: Grid)
    requires IsGrid(grid) && row < MAX_ROWS && column < MAX_COLUMNS
    ensures IsGrid(r)
    ensures forall i, j {:trigger r[i][j]} :: 0 <= i < MAX_ROWS && 0 <= j < MAX_COLUMNS ==>
              r[i][j] == if i == row && j == column then cell else grid[i][j]
  {
    grid[row := grid[row][column := cell]]
  }

  /** Visible rows move up by one; the last one becomes empty over its whole width. */
  function ScrollGrid(grid: Grid, rows: nat, columns: nat): (r: Grid)
    requires IsGrid(grid) && 0 < rows <= MAX_ROWS && columns <= MAX_COLUMNS
    ensures IsGrid(r)
    ensures forall i, j {:trigger r[i][j]} :: 0 <= i < MAX_ROWS && 0 <= j < MAX_COLUMNS ==>
              r[i][j] == if i < rows - 1 && j < columns then grid[i + 1][j]
                         else if i == rows - 1 then EMPTY else grid[i][j]
  {
    seq(MAX_ROWS, i requires 0 <= i < MAX_ROWS =>
      if i < rows - 1 then grid[i + 1][..columns] + grid[i][columns..]
      else if i == rows - 1 then seq(MAX_COLUMNS, _ => EMPTY) else grid[i])
  }

  function EmptyGrid(): (grid: Grid)
    ensures IsGrid(grid)
    ensures forall i, j :: 0 <= i < MAX_ROWS && 0 <= j < MAX_COLUMNS ==> grid[i][j] == EMPTY
  {
    seq(MAX_ROWS, _ => seq(MAX_COLUMNS, _ => EMPTY))
  }

  // ---------------------------------------------------------------- drawing

  /** `draw_char`: the glyph's set pixels, as far as they are on the screen, get pixel value `p`. */
  function DrawGlyph(img: Image, v: Video, x: nat, y: nat, ch: Octet, p: Pixel): (r: Image)
    requires IsImage(img, v.width, v.height)
    ensures IsImage(r, v.width, v.height)
    ensures forall j, i {:trigger r[j][i]} :: 0 <= j < v.height && 0 <= i < v.width ==>
              r[j][i] == if x <= i < x + CHAR_WIDTH && y <= j < y + CHAR_HEIGHT && v.glyph(ch, i - x, j - y)
                         then p else img[j][i]
  {
    seq(v.height, j requires 0 <= j < v.height =>
      seq(v.width, i requires 0 <= i < v.width =>
        if x <= i < x + CHAR_WIDTH && y <= j < y + CHAR_HEIGHT && v.glyph(ch, i - x, j - y) then p else img[j][i]))
  }

  /** `render_cell`: background first, then the glyph. */
  function RenderCell(img: Image, v: Video, c: Con, row: nat, column: nat): (r: Image)
    requires IsImage(img, v.width, v.height) && Ok(c)
    ensures IsImage(r, v.width, v.height)
  {
    if row >= c.rows || column >= c.columns then img
    else
      var cell := c.grid[row][column];
      var x, y := column * CHAR_WIDTH, row * CHAR_HEIGHT;
      var cleared := FillRect(img, v.width, v.height, x, y, x + CHAR_WIDTH, y + CHAR_HEIGHT,
                              Encode(v.format, cell.background));
      if cell.character == SPACE then cleared
      else DrawGlyph(cleared, v, x, y, cell.character, Encode(v.format, cell.foreground))
  }

  // ---------------------------------------------------------------- cursor and cells together

  function Scroll(v: Video, s: State): (t: State)
    requires Proper(v, s)
    ensures Proper(v, t)
  {
    var c := s.con;
    if c.rows == 0 then s
    else State(c.(grid := ScrollGrid(c.grid, c.rows, c.columns), x := 0, y := c.rows - 1),
               ScrolledUp(s.img, v.width, v.height, CHAR_HEIGHT, Encode(v.format, c.background)))
  }

  function Newline(v: Video, s: State): (t: State)
    requires Proper(v, s.(con := s.con.(x := 0)))
    ensures Proper(v, t)
  {
    var c := s.con.(x := 0);
    if c.rows == 0 then s.(con := c)
    else if c.y + 1 < c.rows then s.(con := c.(y := c.y + 1))
    else Scroll(v, s.(con := c))
  }

  /** Stores the cell, draws it, advances, and wraps at the right edge; also takes a cursor past that edge. */
  function WriteCell(v: Video, s: State, ch: Octet): (t: State)
    requires Proper(v, s.(con := s.con.(x := 0)))
    ensures Proper(v, s) ==> Proper(v, t)
  {
    if s.con.columns == 0 || s.con.rows == 0 then s
    else
      var u := if s.con.x >= s.con.columns then Newline(v, s) else s;
      var c := u.con.(grid := SetCell(u.con.grid, u.con.y, u.con.x, Cell(ch, u.con.foreground, u.con.background)));
      var drawn := State(c.(x := c.x + 1), RenderCell(u.img, v, c, c.y, c.x));
      if c.x + 1 >= c.columns then Newline(v, drawn) else drawn
  }

  function Backspace(v: Video, s: State): (t: State)
    requires Proper(v, s)
    ensures Proper(v, t)
  {
    var c := s.con;
    if c.x == 0 && c.y == 0 then s
    else
      var back := if c.x == 0 then c.(y := c.y - 1, x := Max(c.columns, 1) - 1) else c.(x := c.x - 1);
      var erased := back.(grid := SetCell(back.grid, back.y, back.x, EMPTY));
      State(erased, RenderCell(s.img, v, erased, erased.y, erased.x))
  }

  predicate Printable(ch: Octet) {
    0x20 <= ch <= 0x7e
  }

  function PutChar(v: Video, s: State, ch: Octet): (t: State)
    requires Proper(v, s)
    ensures Proper(v, t)
  {
    if ch == 10 then Newline(v, s)
    else if ch == 13 then s.(con := s.con.(x := 0))
    else if ch == 9 then
      var next := (s.con.x / TAB_SIZE + 1) * TAB_SIZE;
      if next >= s.con.columns then Newline(v, s) else s.(con := s.con.(x := next))
    else if ch == 8 then Backspace(v, s)
    else if Printable(ch) then WriteCell(v, s, ch)
    else s
  }

  function WriteStr(v: Video, s: State, text: seq<Octet>): (t: State)
    requires Proper(v, s)
    ensures Proper(v, t)
  {
    if text == [] then s else PutChar(v, WriteStr(v, s, text[..|text| - 1]), text[|text| - 1])
  }

  function Cleared(v: Video, s: State): (t: State)
    requires Proper(v, s)
    ensures Proper(v, t)
  {
    var c := s.con;
    State(c.(grid := EmptyGrid(), x := 0, y := 0, inputLen := 0, lineReady := false),
          FillRect(s.img, v.width, v.height, 0, 0, v.width, v.height, Encode(v.format, c.background)))
  }

  // ---------------------------------------------------------------- keyboard

  /** `read_line` into a buffer of `room` bytes: nothing before Enter, then the line cut to the room. */
  function ReadLine(c: Con, room: nat): (Option<seq<Octet>>, Con)
    requires c.inputLen <= |c.input|
  {
    if !c.lineReady then (None, c)
    else (Some(c.input[..Min(c.inputLen, room)]), c.(inputLen := 0, lineReady := false))
  }

  /** A key is a code point; control keys other than those named are ignored. */
  function ReceiveKey(v: Video, s: State, key: nat): (t: State)
    requires Proper(v, s)
    ensures Proper(v, t)
  {
    var c := s.con;
    if key == 10 || key == 13 then
      var t := PutChar(v, s, 10);
      t.(con := t.con.(lineReady := true))
    else if key == 8 || key == 0x7f then
      if c.inputLen > 0 && c.x > 2 then PutChar(v, s.(con := c.(inputLen := c.inputLen - 1)), 8) else s
    else if 0x20 <= key < 0x7f then
      if c.inputLen < INPUT_SIZE
      then PutChar(v, s.(con := c.(input := c.input[c.inputLen := key], inputLen := c.inputLen + 1)), key)
      else s
    else s
  }
}
