/** The console as it runs: a flat cell buffer, a cursor, a line buffer, and drawing into the framebuffer. */
module Console {
  import opened Wrappers
  import opened Images
  import opened Pixels
  import opened Framebuffer
  import opened ConsoleModel
  import opened ConsoleDrawing
  import opened ConsoleEcho

  /** `img` with the first `n` of the 8 x 16 positions of a glyph drawn, row by row. */
  ghost function GlyphSoFar(img: Image, v: Video, x: nat, y: nat, ch: Octet, p: Pixel, n: nat): (r: Image)
    requires IsImage(img, v.width, v.height)
    ensures IsImage(r, v.width, v.height)
    ensures forall j, i {:trigger r[j][i]} :: 0 <= j < v.height && 0 <= i < v.width ==>
              r[j][i] == if x <= i < x + CHAR_WIDTH && y <= j < y + CHAR_HEIGHT
                            && (j - y) * CHAR_WIDTH + (i - x) < n && v.glyph(ch, i - x, j - y)
                         then p else img[j][i]
  {
    seq(v.height, j requires 0 <= j < v.height =>
      seq(v.width, i requires 0 <= i < v.width =>
        if x <= i < x + CHAR_WIDTH && y <= j < y + CHAR_HEIGHT
           && (j - y) * CHAR_WIDTH + (i - x) < n && v.glyph(ch, i - x, j - y)
        then p else img[j][i]))
  }

  lemma GlyphStarts(img: Image, v: Video, x: nat, y: nat, ch: Octet, p: Pixel)
    requires IsImage(img, v.width, v.height)
    ensures GlyphSoFar(img, v, x, y, ch, p, 0) == img
    ensures GlyphSoFar(img, v, x, y, ch, p, CHAR_WIDTH * CHAR_HEIGHT) == DrawGlyph(img, v, x, y, ch, p)
  {
    hide GlyphSoFar, DrawGlyph;
    SameImage(GlyphSoFar(img, v, x, y, ch, p, 0), img, v.width, v.height);
    SameImage(GlyphSoFar(img, v, x, y, ch, p, CHAR_WIDTH * CHAR_HEIGHT), DrawGlyph(img, v, x, y, ch, p),
              v.width, v.height);
  }

  lemma GlyphStep(img: Image, v: Video, x: nat, y: nat, ch: Octet, p: Pixel, row: nat, col: nat)
    requires IsImage(img, v.width, v.height) && row < CHAR_HEIGHT && col < CHAR_WIDTH
    ensures var n := row * CHAR_WIDTH + col;
            var before := GlyphSoFar(img, v, x, y, ch, p, n);
            GlyphSoFar(img, v, x, y, ch, p, n + 1) ==
            if v.glyph(ch, col, row)
            then FillRect(before, v.width, v.height, x + col, y + row, x + col + 1, y + row + 1, p)
            else before
  {
    hide GlyphSoFar, FillRect;
    var n := row * CHAR_WIDTH + col;
    var before, after := GlyphSoFar(img, v, x, y, ch, p, n), GlyphSoFar(img, v, x, y, ch, p, n + 1);
    if v.glyph(ch, col, row) {
      SameImage(after, FillRect(before, v.width, v.height, x + col, y + row, x + col + 1, y + row + 1, p),
                v.width, v.height);
    } else {
      SameImage(after, before, v.width, v.height);
    }
  }

  /** The cells of the visible rows above `row` have been drawn, and of that row the first `column`. */
  ghost function DrawnSoFar(img: Image, v: Video, c: Con, row: nat, column: nat): (r: Image)
    requires IsImage(img, v.width, v.height) && Ok(c)
    ensures IsImage(r, v.width, v.height)
    ensures forall j, i {:trigger r[j][i]} :: 0 <= j < v.height && 0 <= i < v.width ==>
              r[j][i] == if i / CHAR_WIDTH < c.columns && j / CHAR_HEIGHT < c.rows
                            && (j / CHAR_HEIGHT < row || (j / CHAR_HEIGHT == row && i / CHAR_WIDTH < column))
                         then PicturePixel(v, c, i, j) else img[j][i]
  {
    seq(v.height, j requires 0 <= j < v.height =>
      seq(v.width, i requires 0 <= i < v.width =>
        if i / CHAR_WIDTH < c.columns && j / CHAR_HEIGHT < c.rows
           && (j / CHAR_HEIGHT < row || (j / CHAR_HEIGHT == row && i / CHAR_WIDTH < column))
        then PicturePixel(v, c, i, j) else img[j][i]))
  }

  lemma DrawnStep(img: Image, v: Video, c: Con, row: nat, column: nat)
    requires IsImage(img, v.width, v.height) && Ok(c) && row < c.rows && column < c.columns
    ensures RenderCell(DrawnSoFar(img, v, c, row, column), v, c, row, column) == DrawnSoFar(img, v, c, row, column + 1)
  {
    hide DrawnSoFar, RenderCell, CellPixel;
    var before, after := DrawnSoFar(img, v, c, row, column), DrawnSoFar(img, v, c, row, column + 1);
    var drawn := RenderCell(before, v, c, row, column);
    forall j, i | 0 <= j < v.height && 0 <= i < v.width ensures drawn[j][i] == after[j][i] {
      RenderCellPixel(before, v, c, row, column, i, j);
    }
    SameImage(drawn, after, v.width, v.height);
  }

  lemma DrawnRow(img: Image, v: Video, c: Con, row: nat)
    requires IsImage(img, v.width, v.height) && Ok(c)
    ensures DrawnSoFar(img, v, c, row, c.columns) == DrawnSoFar(img, v, c, row + 1, 0)
  {
    hide DrawnSoFar;
    SameImage(DrawnSoFar(img, v, c, row, c.columns), DrawnSoFar(img, v, c, row + 1, 0), v.width, v.height);
  }

  /** Nothing drawn is the image itself; everything drawn on plain background is the picture. */
  lemma DrawnEnds(img: Image, v: Video, c: Con)
    requires IsImage(img, v.width, v.height) && Ok(c)
    ensures DrawnSoFar(img, v, c, 0, 0) == img
    ensures DrawnSoFar(FillRect(img, v.width, v.height, 0, 0, v.width, v.height, Encode(v.format, c.background)),
                       v, c, c.rows, 0) == Picture(v, c)
  {
    hide DrawnSoFar, FillRect, CellPixel, Picture, Encode;
    SameImage(DrawnSoFar(img, v, c, 0, 0), img, v.width, v.height);
    var plain := FillRect(img, v.width, v.height, 0, 0, v.width, v.height, Encode(v.format, c.background));
    SameImage(DrawnSoFar(plain, v, c, c.rows, 0), Picture(v, c), v.width, v.height);
  }

  /** Grid rows below `done` already hold the row that was under them. */
  ghost predicate ShiftedSoFar(before: Grid, grid: Grid, columns: nat, done: nat)
    requires IsGrid(before) && IsGrid(grid) && columns <= MAX_COLUMNS
  {
    forall r {:trigger grid[r]} :: 0 <= r < MAX_ROWS ==>
      grid[r] == if r < done && r + 1 < MAX_ROWS then before[r + 1][..columns] + before[r][columns..] else before[r]
  }

  class Console {
    const fb: Framebuffer
    const glyph: (Octet, nat, nat) -> bool
    const columns: nat
    const rows: nat
    const cells: array<Cell>
    const input: array<Octet>
    var cursorX: nat
    var cursorY: nat
    var foreground: Color
    var background: Color
    var inputLen: nat
    var lineReady: bool

    ghost predicate Shape() {
      cells.Length == MAX_COLUMNS * MAX_ROWS && input.Length == INPUT_SIZE
      && Fits(cells.Length, MAX_COLUMNS, MAX_ROWS, MAX_COLUMNS)
      && (cells as object) !in {fb.back as object, fb.front, input}
      && (input as object) !in {fb.back as object, fb.front}
    }

    ghost function Cells(): (grid: Grid)
      requires Shape()
      reads cells
      ensures IsGrid(grid)
    {
      Rows(cells[..], MAX_COLUMNS, MAX_ROWS, MAX_COLUMNS)
    }

    ghost function Model(): Con
      requires Shape()
      reads this, cells, input
    {
      Con(columns, rows, cursorX, cursorY, foreground, background, Cells(), input[..], inputLen, lineReady)
    }

    ghost function View(): Video {
      Video(fb.width, fb.height, fb.format, glyph)
    }

    ghost function Now(): State
      requires Shape() && fb.Geometry()
      reads this, cells, input, fb.back
    {
      State(Model(), fb.Image())
    }

    /** Everything holds, except that the cursor may stand past the right edge. */
    ghost predicate Sound()
      reads this, cells, input, fb, fb.back, fb.front
    {
      && Shape() && fb.Valid()
      && Proper(View(), Now().(con := Model().(x := 0)))
    }

    ghost predicate Valid()
      reads this, cells, input, fb, fb.back, fb.front
    {
      Sound() && Proper(View(), Now())
    }

    constructor (fb: Framebuffer, glyph: (Octet, nat, nat) -> bool)
      requires fb.Valid()
      ensures Valid() && this.fb == fb && this.glyph == glyph && fresh(cells) && fresh(input)
      ensures Model() == Con(fb.width / CHAR_WIDTH, fb.height / CHAR_HEIGHT, 0, 0, WHITE, BLACK, EmptyGrid(),
                             seq(INPUT_SIZE, _ => 0), 0, false)
    {
      this.fb, this.glyph := fb, glyph;
      columns := Min(fb.width / CHAR_WIDTH, MAX_COLUMNS);
      rows := Min(fb.height / CHAR_HEIGHT, MAX_ROWS);
      cells := new Cell[MAX_COLUMNS * MAX_ROWS](_ => EMPTY);
      input := new Octet[INPUT_SIZE](_ => 0);
      cursorX, cursorY, foreground, background, inputLen, lineReady := 0, 0, WHITE, BLACK, 0, false;
      new;
      LastRowFits(cells.Length, MAX_COLUMNS, MAX_ROWS, MAX_COLUMNS);
      AllEmpty(cells[..]);
      assert input[..] == seq(INPUT_SIZE, _ => 0);
    }

    // -------------------------------------------------------------- cells

    method PutCell(row: nat, column: nat, cell: Cell)
      requires Shape() && row < MAX_ROWS && column < MAX_COLUMNS
      modifies cells
      ensures Cells() == SetCell(old(Cells()), row, column, cell)
    {
      ghost var before := cells[..];
      cells[row * MAX_COLUMNS + column] := cell;
      RowsUpdate(before, cells[..], MAX_COLUMNS, MAX_ROWS, MAX_COLUMNS, row, column, column + 1);
      assert Cells()[row] == old(Cells())[row][column := cell];
    }

    /** Empties a visible row over the whole width of the buffer. */
    method ClearRow(row: nat)
      requires Shape() && rows <= MAX_ROWS
      modifies cells
      ensures Cells() == if row >= rows then old(Cells()) else old(Cells())[row := seq(MAX_COLUMNS, _ => EMPTY)]
    {
      if row >= rows {
        return;
      }
      hide Rows;
      ghost var before := cells[..];
      forall k | 0 <= k < MAX_COLUMNS {
        cells[row * MAX_COLUMNS + k] := EMPTY;
      }
      RowsUpdate(before, cells[..], MAX_COLUMNS, MAX_ROWS, MAX_COLUMNS, row, 0, MAX_COLUMNS);
      ghost var was, blank := old(Cells())[row], seq(MAX_COLUMNS, _ => EMPTY);
      assert cells[..][row * MAX_COLUMNS + 0..row * MAX_COLUMNS + MAX_COLUMNS] == blank;
      assert was[..0] + blank + was[MAX_COLUMNS..] == blank;
    }

    // -------------------------------------------------------------- drawing

    /** The glyph loop of the font: sets the pixels of the character that the glyph has. */
    method DrawChar(x: nat, y: nat, ch: Octet, color: Color)
      requires fb.Valid()
      modifies fb, fb.back
      ensures fb.Valid()
      ensures fb.Image() == DrawGlyph(old(fb.Image()), View(), x, y, ch, Encode(fb.format, color))
    {
      hide DrawGlyph, GlyphSoFar, FillRect, Encode, Rows, Agree;
      ghost var img, p := fb.Image(), Encode(fb.format, color);
      GlyphStarts(img, View(), x, y, ch, p);
      for row := 0 to CHAR_HEIGHT
        invariant fb.Valid() && fb.Image() == GlyphSoFar(img, View(), x, y, ch, p, row * CHAR_WIDTH)
      {
        for col := 0 to CHAR_WIDTH
          invariant fb.Valid() && fb.Image() == GlyphSoFar(img, View(), x, y, ch, p, row * CHAR_WIDTH + col)
        {
          GlyphStep(img, View(), x, y, ch, p, row, col);
          if glyph(ch, col, row) {
            fb.PutPixel(x + col, y + row, color);
          }
        }
      }
    }

    method GetCell(row: nat, column: nat) returns (cell: Cell)
      requires Shape() && row < MAX_ROWS && column < MAX_COLUMNS
      ensures cell == Cells()[row][column]
    {
      CellAt(cells[..], row, column);
      cell := cells[row * MAX_COLUMNS + column];
    }

    method RenderCellAt(row: nat, column: nat)
      requires Valid()
      modifies fb, fb.back
      ensures Valid() && fb.Image() == RenderCell(old(fb.Image()), View(), Model(), row, column)
    {
      hide DrawGlyph, FillRect, Encode, Decode, Agree, Rows, CellPixel, Marked, PicturePixel;
      if row >= rows || column >= columns {
        return;
      }
      var cell := GetCell(row, column);
      var x, y := column * CHAR_WIDTH, row * CHAR_HEIGHT;
      fb.DrawRect(x, y, CHAR_WIDTH, CHAR_HEIGHT, cell.background);
      if cell.character != SPACE {
        DrawChar(x, y, cell.character, cell.foreground);
      }
    }

    /** The full redraw, whatever was on the backbuffer before. */
    method Render()
      requires Valid()
      modifies fb, fb.back
      ensures Valid() && fb.Image() == Picture(View(), Model())
    {
      hide RenderCell, FillRect, Encode, Agree, DrawnSoFar, Rows, Picture;
      ghost var v, c := View(), Model();
      DrawnEnds(fb.Image(), v, c);
      fb.Clear(background);
      ghost var plain := fb.Image();
      DrawnEnds(plain, v, c);
      for row := 0 to rows
        invariant Valid() && fb.Image() == DrawnSoFar(plain, v, c, row, 0)
      {
        for column := 0 to columns
          invariant Valid() && fb.Image() == DrawnSoFar(plain, v, c, row, column)
        {
          DrawnStep(plain, v, c, row, column);
          RenderCellAt(row, column);
        }
        DrawnRow(plain, v, c, row);
      }
    }

    // -------------------------------------------------------------- cursor

    method Scroll()
      requires Sound()
      modifies this, cells, fb, fb.back
      ensures Sound() && input[..] == old(input[..])
      ensures Now() == if rows == 0 then old(Now()) else
                State(old(Model()).(grid := ScrollGrid(old(Cells()), rows, columns), x := 0, y := rows - 1),
                      ScrolledUp(old(fb.Image()), fb.width, fb.height, CHAR_HEIGHT, Encode(fb.format, background)))
    {
      hide ScrolledUp, Encode, Agree, ScrollGrid, Rows, ShiftedSoFar;
      if rows == 0 {
        return;
      }
      fb.ScrollUp(CHAR_HEIGHT, background);
      ShiftRows();
      ghost var shifted := Cells();
      ClearRow(rows - 1);
      ShiftedIsScrolled(old(Cells()), shifted, Cells(), columns, rows);
      cursorX := 0;
      cursorY := rows - 1;
    }

    /** The row loop of `scroll`: each visible row over the one above it. */
    method ShiftRows()
      requires Shape() && 0 < rows <= MAX_ROWS && columns <= MAX_COLUMNS
      modifies cells
      ensures ShiftedSoFar(old(Cells()), Cells(), columns, rows - 1)
    {
      hide Rows;
      for row := 1 to rows
        invariant ShiftedSoFar(old(Cells()), Cells(), columns, row - 1)
      {
        ShiftStep(old(Cells()), Cells(), columns, row);
        MoveRowUp(row);
      }
    }

    /** `copy_within`: moves `n` cells of the flat buffer. */
    method MoveCells(src: nat, dst: nat, n: nat)
      requires src + n <= cells.Length && dst + n <= cells.Length
      modifies cells
      ensures forall i :: 0 <= i < cells.Length && !(dst <= i < dst + n) ==> cells[i] == old(cells[i])
      ensures cells[dst..dst + n] == old(cells[src..src + n])
    {
      forall i | dst <= i < dst + n {
        cells[i] := cells[src + (i - dst)];
      }
    }

    /** Moves the first `columns` cells of a row to the row above. */
    method MoveRowUp(row: nat)
      requires Shape() && 0 < row < MAX_ROWS && columns <= MAX_COLUMNS
      modifies cells
      ensures Cells() == old(Cells())[row - 1 := old(Cells())[row][..columns] + old(Cells())[row - 1][columns..]]
    {
      hide Rows, IsGrid;
      var src, dst := row * MAX_COLUMNS, (row - 1) * MAX_COLUMNS;
      ghost var before := cells[..];
      MoveCells(src, dst, columns);
      RowsUpdate(before, cells[..], MAX_COLUMNS, MAX_ROWS, MAX_COLUMNS, row - 1, 0, columns);
      RowSlice(before, MAX_COLUMNS, MAX_ROWS, MAX_COLUMNS, row, 0, columns);
      assert cells[..][dst + 0..dst + columns] == cells[dst..dst + columns];
      assert before[src + 0..src + columns] == before[src..src + columns];
      ghost var was := old(Cells());
      assert was[row][0..columns] == was[row][..columns];
      assert was[row - 1][..0] + was[row][..columns] + was[row - 1][columns..]
          == was[row][..columns] + was[row - 1][columns..];
    }

    method Newline()
      requires Sound()
      modifies this, cells, fb, fb.back
      ensures Valid() && Now() == ConsoleModel.Newline(View(), old(Now())) && input[..] == old(input[..])
    {
      hide ScrolledUp, Encode, Agree, ScrollGrid, Rows;
      cursorX := 0;
      if rows == 0 {
        return;
      }
      if cursorY + 1 < rows {
        cursorY := cursorY + 1;
      } else {
        Scroll();
      }
    }

    /** `set_cell` and `render_cell` at the cursor. */
    method StoreAndRender(cell: Cell)
      requires Valid()
      modifies cells, fb, fb.back
      ensures Valid() && input[..] == old(input[..])
      ensures Model() == old(Model()).(grid := SetCell(old(Cells()), cursorY, cursorX, cell))
      ensures fb.Image() == RenderCell(old(fb.Image()), View(), Model(), cursorY, cursorX)
    {
      hide SetCell, RenderCell, Encode, Agree, Rows;
      PutCell(cursorY, cursorX, cell);
      RenderCellAt(cursorY, cursorX);
    }

    method WriteCell(ch: Octet)
      requires Sound()
      modifies this, cells, fb, fb.back
      ensures Sound() && (old(Valid()) ==> Valid())
      ensures Now() == ConsoleModel.WriteCell(View(), old(Now()), ch) && input[..] == old(input[..])
    {
      hide ConsoleModel.Newline, SetCell, RenderCell, Encode, Agree, Rows;
      if columns == 0 || rows == 0 {
        return;
      }
      if cursorX >= columns {
        Newline();
      }
      StoreAndRender(Cell(ch, foreground, background));
      cursorX := cursorX + 1;
      if cursorX >= columns {
        Newline();
      }
    }

    method Backspace()
      requires Valid()
      modifies this, cells, fb, fb.back
      ensures Valid() && Now() == ConsoleModel.Backspace(View(), old(Now())) && input[..] == old(input[..])
    {
      hide SetCell, RenderCell, Encode, Agree, Rows;
      if cursorX == 0 {
        if cursorY == 0 {
          return;
        }
        cursorY := cursorY - 1;
        cursorX := if columns > 0 then columns - 1 else 0;
      } else {
        cursorX := cursorX - 1;
      }
      StoreAndRender(EMPTY);
    }

    method PutChar(ch: Octet)
      requires Valid()
      modifies this, cells, fb, fb.back
      ensures Valid() && Now() == ConsoleModel.PutChar(View(), old(Now()), ch) && input[..] == old(input[..])
    {
      hide ConsoleModel.Newline, ConsoleModel.WriteCell, ConsoleModel.Backspace, Encode, Agree, Rows;
      if ch == 10 {
        Newline();
      } else if ch == 13 {
        cursorX := 0;
      } else if ch == 9 {
        var nextTab := (cursorX / TAB_SIZE + 1) * TAB_SIZE;
        if nextTab >= columns {
          Newline();
        } else {
          cursorX := nextTab;
        }
      } else if ch == 8 {
        Backspace();
      } else if 0x20 <= ch <= 0x7e {
        WriteCell(ch);
      }
    }

    method WriteStr(text: seq<Octet>)
      requires Valid()
      modifies this, cells, fb, fb.back
      ensures Valid() && Now() == ConsoleModel.WriteStr(View(), old(Now()), text)
    {
      hide ConsoleModel.PutChar, Encode, Agree, Rows;
      for i := 0 to |text|
        invariant Valid() && Now() == ConsoleModel.WriteStr(View(), old(Now()), text[..i])
      {
        PutChar(text[i]);
        assert text[..i + 1][..i] == text[..i];
      }
      assert text[..|text|] == text;
    }

    method Clear()
      requires Valid()
      modifies this, cells, fb, fb.back
      ensures Valid() && Now() == Cleared(View(), old(Now()))
    {
      hide FillRect, Encode, Agree, Rows;
      forall i | 0 <= i < cells.Length {
        cells[i] := EMPTY;
      }
      AllEmpty(cells[..]);
      cursorX, cursorY := 0, 0;
      inputLen, lineReady := 0, false;
      fb.Clear(background);
    }

    // -------------------------------------------------------------- keyboard

    /** Appends a byte to the line buffer. */
    method Remember(byte: Octet)
      requires Valid() && inputLen < INPUT_SIZE
      modifies `inputLen, input
      ensures Valid() && fb.Image() == old(fb.Image())
      ensures Model() == old(Model()).(input := old(input[..])[old(inputLen) := byte], inputLen := old(inputLen) + 1)
    {
      hide Encode, Agree, Rows, IsGrid, IsImage;
      input[inputLen] := byte;
      inputLen := inputLen + 1;
    }

    method ReceiveKey(key: nat)
      requires Valid()
      modifies this, cells, input, fb, fb.back
      ensures Valid() && Now() == ConsoleModel.ReceiveKey(View(), old(Now()), key)
    {
      hide ConsoleModel.PutChar, Encode, Agree, Rows, IsGrid, IsImage;
      if key == 10 || key == 13 {
        PutChar(10);
        lineReady := true;
      } else if key == 8 || key == 0x7f {
        if inputLen > 0 && cursorX > 2 {
          inputLen := inputLen - 1;
          PutChar(8);
        }
      } else if 0x20 <= key < 0x7f {
        if inputLen < INPUT_SIZE {
          Remember(key);
          PutChar(key);
        }
      }
    }

    method ReadLine(buffer: array<Octet>) returns (length: Option<nat>)
      requires Valid() && (buffer as object) !in {input as object, cells, fb.back, fb.front}
      modifies this, buffer
      ensures Valid()
      ensures var (line, after) := ConsoleModel.ReadLine(old(Model()), buffer.Length);
              && Model() == after && fb.Image() == old(fb.Image())
              && (line.None? ==> length == None && buffer[..] == old(buffer[..]))
              && (line.Some? ==> length == Some(|line.value|)
                                 && buffer[..] == line.value + old(buffer[..])[|line.value|..])
    {
      hide Encode, Agree, Rows;
      if !lineReady {
        return None;
      }
      var n := Min(inputLen, buffer.Length);
      forall i | 0 <= i < n {
        buffer[i] := input[i];
      }
      inputLen, lineReady := 0, false;
      return Some(n);
    }
  }

  lemma ShiftStep(before: Grid, grid: Grid, columns: nat, row: nat)
    requires IsGrid(before) && IsGrid(grid) && columns <= MAX_COLUMNS && 0 < row < MAX_ROWS
    requires ShiftedSoFar(before, grid, columns, row - 1)
    ensures ShiftedSoFar(before, grid[row - 1 := grid[row][..columns] + grid[row - 1][columns..]], columns, row)
  {
    var r := row - 1;
    assert grid[row] == before[row] && grid[r] == before[r] && before[r + 1] == before[row];
    var next := grid[r := grid[row][..columns] + grid[r][columns..]];
    assert next[r] == before[r + 1][..columns] + before[r][columns..];
  }

  lemma ShiftedIsScrolled(before: Grid, shifted: Grid, grid: Grid, columns: nat, rows: nat)
    requires IsGrid(before) && IsGrid(grid) && columns <= MAX_COLUMNS && 0 < rows <= MAX_ROWS
    requires IsGrid(shifted) && ShiftedSoFar(before, shifted, columns, rows - 1)
    requires grid == shifted[rows - 1 := seq(MAX_COLUMNS, _ => EMPTY)]
    ensures grid == ScrollGrid(before, rows, columns)
  {
    var goal := ScrollGrid(before, rows, columns);
    forall r | 0 <= r < MAX_ROWS ensures grid[r] == goal[r] {
      if r < rows - 1 {
        assert shifted[r] == before[r + 1][..columns] + before[r][columns..];
      } else if r > rows - 1 {
        assert shifted[r] == before[r];
      }
    }
  }

  lemma CellAt(cells: seq<Cell>, row: nat, column: nat)
    requires Fits(|cells|, MAX_COLUMNS, MAX_ROWS, MAX_COLUMNS) && row < MAX_ROWS && column < MAX_COLUMNS
    ensures row * MAX_COLUMNS + column < |cells|
    ensures Rows(cells, MAX_COLUMNS, MAX_ROWS, MAX_COLUMNS)[row][column] == cells[row * MAX_COLUMNS + column]
  {
  }

  lemma AllEmpty(cells: seq<Cell>)
    requires Fits(|cells|, MAX_COLUMNS, MAX_ROWS, MAX_COLUMNS)
    requires forall i :: 0 <= i < |cells| ==> cells[i] == EMPTY
    ensures Rows(cells, MAX_COLUMNS, MAX_ROWS, MAX_COLUMNS) == EmptyGrid()
  {
    hide Rows;
    var grid := Rows(cells, MAX_COLUMNS, MAX_ROWS, MAX_COLUMNS);
    forall r | 0 <= r < MAX_ROWS ensures grid[r] == EmptyGrid()[r] {
      RowSlice(cells, MAX_COLUMNS, MAX_ROWS, MAX_COLUMNS, r, 0, MAX_COLUMNS);
      assert grid[r] == grid[r][0..MAX_COLUMNS];
    }
  }

  // ---------------------------------------------------------------- from the text to the screen

  /** Every visible byte of the screen is the byte of the full picture of the grid. */
  ghost predicate OnScreen(c: Console)
    requires c.Valid()
    reads c, c.cells, c.input, c.fb, c.fb.back, c.fb.front
  {
    forall y, j {:trigger c.fb.Shown()[y][j]} :: 0 <= y < c.fb.height && 0 <= j < 4 * c.fb.width ==>
      c.fb.Shown()[y][j] == ByteAt(Picture(c.View(), c.Model())[y], j)
  }

  /** `write_fmt`: characters are drawn one by one, then only the dirty rectangle is copied to the screen. */
  method WriteAndPresent(c: Console, text: seq<Octet>)
    requires c.Valid() && InSync(c.View(), c.Now()) && DefaultBackground(c.View(), c.Model())
    modifies c, c.cells, c.fb, c.fb.back, c.fb.front
    ensures c.Valid() && c.fb.Dirt() == Clean && c.Now() == ConsoleModel.WriteStr(c.View(), old(c.Now()), text)
    ensures InSync(c.View(), c.Now()) && OnScreen(c)
  {
    hide Picture, Encode, Agree, Rows, ConsoleModel.PutChar, ByteAt;
    WriteStrInSync(c.View(), c.Now(), text);
    c.WriteStr(text);
    c.fb.Present();
  }

  lemma {:induction false} WriteStrInSync(v: Video, s: State, text: seq<Octet>)
    requires Proper(v, s) && DefaultBackground(v, s.con) && InSync(v, s)
    ensures var t := ConsoleModel.WriteStr(v, s, text);
            InSync(v, t) && t.con.background == s.con.background
  {
    hide Picture, Encode, ConsoleModel.PutChar;
    if text != [] {
      WriteStrInSync(v, s, text[..|text| - 1]);
      PutCharInSync(v, ConsoleModel.WriteStr(v, s, text[..|text| - 1]), text[|text| - 1]);
    }
  }

  /** `init`: a cleared console with the prompt on it, shown, and an empty line buffer. */
  method Boot(fb: Framebuffer, glyph: (Octet, nat, nat) -> bool) returns (c: Console)
    requires fb.Valid()
    modifies fb, fb.back, fb.front
    ensures fresh(c) && c.fb == fb && c.glyph == glyph && c.Valid() && InSync(c.View(), c.Now()) && OnScreen(c)
    ensures DefaultBackground(c.View(), c.Model()) && c.inputLen == 0 && !c.lineReady && fb.Dirt() == Clean
    ensures c.rows == fb.height / CHAR_HEIGHT && c.columns == fb.width / CHAR_WIDTH
    ensures c.foreground == WHITE && c.background == BLACK
    ensures c.rows > 0 && c.columns > 2 ==> Prompted(c.Model())
  {
    hide InSync, DefaultBackground, Agree, Rows, ConsoleModel.PutChar, ByteAt, Cleared, Prompted, Encode, PixelAt;
    c := new Console(fb, glyph);
    BootState(c.View(), c.Now());
    c.Clear();
    c.PutChar(62);
    c.PutChar(32);
    fb.Present();
    assert OnScreen(c) by {
      SyncedOnScreen(c);
    }
  }

  lemma SyncedOnScreen(c: Console)
    requires c.Valid() && InSync(c.View(), c.Now())
    requires forall y, j {:trigger c.fb.Shown()[y][j]} :: 0 <= y < c.fb.height && 0 <= j < 4 * c.fb.width ==>
               c.fb.Shown()[y][j] == ByteAt(c.fb.Image()[y], j)
    ensures OnScreen(c)
  {
    hide Picture, ByteAt, Agree, Rows;
  }

  lemma BootState(v: Video, s: State)
    requires Proper(v, s) && s.con.background == BLACK
    ensures var t := ConsoleModel.PutChar(v, ConsoleModel.PutChar(v, Cleared(v, s), 62), 32);
            && InSync(v, t) && DefaultBackground(v, t.con)
            && t.con.rows == s.con.rows && t.con.columns == s.con.columns
            && t.con.foreground == s.con.foreground && t.con.background == s.con.background
            && t.con.inputLen == 0 && !t.con.lineReady
            && (s.con.rows > 0 && s.con.columns > 2 ==> Prompted(t.con))
  {
    hide InSync, ConsoleModel.PutChar, Cleared, Encode, Prompted;
    ClearedExactly(v, s);
    ClearedState(v, s);
    var cleared := Cleared(v, s);
    PutCharInSync(v, cleared, 62);
    PutCharKeepsSettings(v, cleared, 62);
    var once := ConsoleModel.PutChar(v, cleared, 62);
    PutCharInSync(v, once, 32);
    PutCharKeepsSettings(v, once, 32);
    if s.con.rows > 0 && s.con.columns > 2 {
      PromptShown(v, s);
    }
  }

  lemma ClearedState(v: Video, s: State)
    requires Proper(v, s)
    ensures var c := Cleared(v, s).con;
            && c.rows == s.con.rows && c.columns == s.con.columns && c.foreground == s.con.foreground
            && c.background == s.con.background && c.inputLen == 0 && !c.lineReady
  {
  }
}
