/** Drawing only what changed leaves the same picture as redrawing the whole grid. */
module ConsoleDrawing {
  import opened Wrappers
  import opened Images
  import opened Pixels
  import opened Framebuffer
  import opened ConsoleModel

  /** Pixel (dx, dy) of a cell. */
  function CellPixel(v: Video, cell: Cell, dx: nat, dy: nat): Pixel {
    if cell.character != SPACE && v.glyph(cell.character, dx, dy) then Encode(v.format, cell.foreground)
    else Encode(v.format, cell.background)
  }

  function PicturePixel(v: Video, c: Con, i: nat, j: nat): Pixel
    requires Ok(c)
  {
    if i / CHAR_WIDTH < c.columns && j / CHAR_HEIGHT < c.rows
    then CellPixel(v, c.grid[j / CHAR_HEIGHT][i / CHAR_WIDTH], i % CHAR_WIDTH, j % CHAR_HEIGHT)
    else Encode(v.format, c.background)
  }

  /** The picture of the whole grid, every cell drawn in its place on the background. */
  function Picture(v: Video, c: Con): (img: Image)
    requires Ok(c)
    ensures IsImage(img, v.width, v.height)
    ensures forall j, i {:trigger img[j][i]} :: 0 <= j < v.height && 0 <= i < v.width ==>
              img[j][i] == PicturePixel(v, c, i, j)
  {
    seq(v.height, j requires 0 <= j < v.height =>
      seq(v.width, i requires 0 <= i < v.width => PicturePixel(v, c, i, j)))
  }

  ghost predicate InSync(v: Video, s: State)
    requires Ok(s.con)
  {
    s.img == Picture(v, s.con)
  }

  predicate DefaultBackground(v: Video, c: Con) {
    Encode(v.format, c.background) == Encode(v.format, BLACK)
  }

  // ---------------------------------------------------------------- one cell

  /** A pixel as a full redraw has it, or background in an empty cell, as `scroll` and `clear` leave it. */
  predicate DrawnPixel(v: Video, c: Con, i: nat, j: nat, p: Pixel)
    requires Ok(c)
  {
    || p == PicturePixel(v, c, i, j)
    || (i / CHAR_WIDTH < c.columns && j / CHAR_HEIGHT < c.rows && p == Encode(v.format, c.background)
        && c.grid[j / CHAR_HEIGHT][i / CHAR_WIDTH] == EMPTY)
  }

  ghost predicate Drawn(v: Video, s: State)
    requires Proper(v, s)
  {
    forall j, i {:trigger s.img[j][i]} :: 0 <= j < v.height && 0 <= i < v.width ==>
      DrawnPixel(v, s.con, i, j, s.img[j][i])
  }

  /** A background that looks like the one of the empty cell makes the two the same. */
  lemma DrawnIsInSync(v: Video, s: State)
    requires Proper(v, s)
    ensures InSync(v, s) ==> Drawn(v, s)
    ensures DefaultBackground(v, s.con) && Drawn(v, s) ==> InSync(v, s)
  {
    hide Picture, Encode;
    if Drawn(v, s) && DefaultBackground(v, s.con) {
      SameImage(s.img, Picture(v, s.con), v.width, v.height);
    }
  }

  lemma SameGridDrawn(v: Video, s: State, d: Con)
    requires Proper(v, s) && Drawn(v, s) && Ok(d)
    requires s.con.columns == d.columns && s.con.rows == d.rows && s.con.background == d.background
    requires forall r, k :: 0 <= r < d.rows && 0 <= k < d.columns ==> s.con.grid[r][k] == d.grid[r][k]
    ensures Drawn(v, State(d, s.img))
  {
    hide CellPixel, Encode;
  }

  /** `render_cell` sets exactly the pixels of the cell, to the cell's picture. */
  lemma RenderCellPixel(img: Image, v: Video, c: Con, row: nat, column: nat, i: nat, j: nat)
    requires IsImage(img, v.width, v.height) && Ok(c) && i < v.width && j < v.height
    ensures RenderCell(img, v, c, row, column)[j][i] ==
            if row < c.rows && column < c.columns && i / CHAR_WIDTH == column && j / CHAR_HEIGHT == row
            then CellPixel(v, c.grid[row][column], i % CHAR_WIDTH, j % CHAR_HEIGHT)
            else img[j][i]
  {
    hide FillRect, DrawGlyph, Encode;
    var x, y := column * CHAR_WIDTH, row * CHAR_HEIGHT;
    assert x <= i < x + CHAR_WIDTH <==> i / CHAR_WIDTH == column;
    assert y <= j < y + CHAR_HEIGHT <==> j / CHAR_HEIGHT == row;
    assert i / CHAR_WIDTH == column ==> i - x == i % CHAR_WIDTH;
    assert j / CHAR_HEIGHT == row ==> j - y == j % CHAR_HEIGHT;
  }

  /** Storing a cell and drawing it. */
  lemma CellDrawn(v: Video, s: State, row: nat, column: nat, cell: Cell)
    requires Proper(v, s) && Drawn(v, s) && row < MAX_ROWS && column < MAX_COLUMNS
    ensures var d := s.con.(grid := SetCell(s.con.grid, row, column, cell));
            Drawn(v, State(d, RenderCell(s.img, v, d, row, column)))
  {
    hide CellPixel, RenderCell, SetCell, Encode;
    var d := s.con.(grid := SetCell(s.con.grid, row, column, cell));
    var img := RenderCell(s.img, v, d, row, column);
    forall j, i | 0 <= j < v.height && 0 <= i < v.width ensures DrawnPixel(v, d, i, j, img[j][i]) {
      RenderCellPixel(s.img, v, d, row, column, i, j);
    }
  }

  // ---------------------------------------------------------------- scrolling

  /** Rows of pixels that come up from the strip below the last whole character row are background. */
  lemma ScrollDrawn(v: Video, s: State)
    requires Proper(v, s) && s.con.rows > 0 && Drawn(v, s)
    ensures Drawn(v, Scroll(v, s))
  {
    hide ScrollGrid, ScrolledUp, Encode, CellPixel;
    var t := Scroll(v, s);
    forall j, i | 0 <= j < v.height && 0 <= i < v.width ensures DrawnPixel(v, t.con, i, j, t.img[j][i]) {
      var below := j + CHAR_HEIGHT;
      assert below / CHAR_HEIGHT == j / CHAR_HEIGHT + 1 && below % CHAR_HEIGHT == j % CHAR_HEIGHT;
      if below < v.height {
        assert DrawnPixel(v, s.con, i, below, s.img[below][i]);
      }
    }
  }

  /** Scrolling keeps picture and grid together exactly when the background is drawn like the default one. */
  lemma ScrollExactly(v: Video, s: State)
    requires Proper(v, s) && s.con.rows > 0 && s.con.columns > 0 && InSync(v, s)
    ensures InSync(v, Scroll(v, s)) <==> DefaultBackground(v, s.con)
  {
    hide Picture, ScrollGrid, ScrolledUp, Encode;
    if DefaultBackground(v, s.con) {
      DrawnIsInSync(v, s);
      ScrollDrawn(v, s);
      DrawnIsInSync(v, Scroll(v, s));
    } else {
      var t, j := Scroll(v, s), (s.con.rows - 1) * CHAR_HEIGHT;
      assert j / CHAR_HEIGHT == s.con.rows - 1 && (j + CHAR_HEIGHT) / CHAR_HEIGHT == s.con.rows;
      assert t.con.grid[s.con.rows - 1][0] == EMPTY;
      assert t.img[j][0] == Encode(v.format, s.con.background);
      assert Picture(v, t.con)[j][0] == Encode(v.format, BLACK);
    }
  }

  // ---------------------------------------------------------------- every operation

  lemma NewlineDrawn(v: Video, s: State)
    requires Proper(v, s.(con := s.con.(x := 0))) && Drawn(v, s.(con := s.con.(x := 0)))
    ensures Drawn(v, Newline(v, s))
  {
    hide Scroll, DrawnPixel;
    var c := s.con.(x := 0);
    if 0 < c.rows {
      if c.y + 1 < c.rows {
        SameGridDrawn(v, s.(con := c), c.(y := c.y + 1));
      } else {
        ScrollDrawn(v, s.(con := c));
      }
    }
  }

  lemma WriteCellDrawn(v: Video, s: State, ch: Octet)
    requires Proper(v, s) && Drawn(v, s)
    ensures Drawn(v, WriteCell(v, s, ch))
  {
    hide Encode, Newline, RenderCell, SetCell, DrawnPixel;
    if s.con.columns > 0 && s.con.rows > 0 {
      var cell := Cell(ch, s.con.foreground, s.con.background);
      var c := s.con.(grid := SetCell(s.con.grid, s.con.y, s.con.x, cell));
      CellDrawn(v, s, c.y, c.x, cell);
      var put := State(c, RenderCell(s.img, v, c, c.y, c.x));
      var drawn := put.(con := c.(x := c.x + 1));
      if c.x + 1 >= c.columns {
        SameGridDrawn(v, put, c.(x := 0));
        NewlineDrawn(v, drawn);
      } else {
        SameGridDrawn(v, put, drawn.con);
      }
    }
  }

  lemma BackspaceDrawn(v: Video, s: State)
    requires Proper(v, s) && Drawn(v, s)
    ensures Drawn(v, Backspace(v, s))
  {
    hide RenderCell, SetCell, DrawnPixel;
    var c := s.con;
    if c.x != 0 || c.y != 0 {
      var back := if c.x == 0 then c.(y := c.y - 1, x := Max(c.columns, 1) - 1) else c.(x := c.x - 1);
      SameGridDrawn(v, s, back);
      CellDrawn(v, s.(con := back), back.y, back.x, EMPTY);
    }
  }

  /** Byte 8 away from the origin: the cell before the cursor in row-major order, and nothing else, becomes empty. */
  lemma BackspaceErases(v: Video, s: State)
    requires Proper(v, s) && s.con.columns > 0 && !(s.con.x == 0 && s.con.y == 0)
    ensures var t := PutChar(v, s, 8);
            && t.con.y * s.con.columns + t.con.x == s.con.y * s.con.columns + s.con.x - 1
            && t.con == s.con.(x := t.con.x, y := t.con.y, grid := t.con.grid)
            && (forall r, k {:trigger t.con.grid[r][k]} :: 0 <= r < MAX_ROWS && 0 <= k < MAX_COLUMNS ==>
                  t.con.grid[r][k] == if r == t.con.y && k == t.con.x then EMPTY else s.con.grid[r][k])
            && (forall j, i {:trigger t.img[j][i]} :: 0 <= j < v.height && 0 <= i < v.width ==>
                  t.img[j][i] == if i / CHAR_WIDTH == t.con.x && j / CHAR_HEIGHT == t.con.y < s.con.rows
                                 then Encode(v.format, BLACK) else s.img[j][i])
  {
    hide RenderCell, SetCell, Encode;
    var t := PutChar(v, s, 8);
    forall j, i | 0 <= j < v.height && 0 <= i < v.width
      ensures t.img[j][i] == if i / CHAR_WIDTH == t.con.x && j / CHAR_HEIGHT == t.con.y < s.con.rows
                             then Encode(v.format, BLACK) else s.img[j][i]
    {
      RenderCellPixel(s.img, v, t.con, t.con.y, t.con.x, i, j);
    }
    assert s.con.x == 0 ==> s.con.y * s.con.columns == t.con.y * s.con.columns + s.con.columns;
  }

  /** After every byte, on any background, each pixel is as a full redraw has it or background in an empty cell. */
  lemma PutCharDrawn(v: Video, s: State, ch: Octet)
    requires Proper(v, s) && Drawn(v, s)
    ensures Drawn(v, PutChar(v, s, ch))
  {
    hide Newline, WriteCell, Backspace, DrawnPixel, Printable;
    if ch == 8 {
      BackspaceDrawn(v, s);
    } else if ch == 10 || ch == 13 || ch == 9 {
      SameGridDrawn(v, s, s.con.(x := 0));
      NewlineDrawn(v, s);
      if ch == 9 && (s.con.x / TAB_SIZE + 1) * TAB_SIZE < s.con.columns {
        SameGridDrawn(v, s, PutChar(v, s, ch).con);
      }
    } else if Printable(ch) {
      WriteCellDrawn(v, s, ch);
    }
  }

  /** Incremental drawing equals a full redraw after every byte. */
  lemma PutCharInSync(v: Video, s: State, ch: Octet)
    requires Proper(v, s) && DefaultBackground(v, s.con) && InSync(v, s)
    ensures InSync(v, PutChar(v, s, ch)) && PutChar(v, s, ch).con.background == s.con.background
  {
    hide InSync, Drawn, PutChar, Encode;
    PutCharKeepsSettings(v, s, ch);
    DrawnIsInSync(v, s);
    PutCharDrawn(v, s, ch);
    DrawnIsInSync(v, PutChar(v, s, ch));
  }

  lemma PutCharKeepsSettings(v: Video, s: State, ch: Octet)
    requires Proper(v, s)
    ensures var c, d := s.con, PutChar(v, s, ch).con;
            && d.background == c.background && d.foreground == c.foreground
            && d.columns == c.columns && d.rows == c.rows
            && d.input == c.input && d.inputLen == c.inputLen && d.lineReady == c.lineReady
  {
    hide RenderCell, SetCell, ScrollGrid, ScrolledUp;
  }

  /** `clear` draws the empty grid exactly when the background is drawn like the default one. */
  lemma ClearedExactly(v: Video, s: State)
    requires Proper(v, s)
    ensures DefaultBackground(v, s.con) ==> InSync(v, Cleared(v, s))
    ensures s.con.rows > 0 && s.con.columns > 0 && InSync(v, Cleared(v, s)) ==> DefaultBackground(v, s.con)
  {
    hide Picture, FillRect, EmptyGrid, Encode;
    var t := Cleared(v, s);
    if DefaultBackground(v, s.con) {
      SameImage(t.img, Picture(v, t.con), v.width, v.height);
    } else if s.con.rows > 0 && s.con.columns > 0 {
      assert Picture(v, t.con)[0][0] == PicturePixel(v, t.con, 0, 0);
      assert t.img[0][0] == Encode(v.format, s.con.background);
    }
  }

  // ---------------------------------------------------------------- runs

  datatype Act = Put(ch: Octet) | Clear | Key(key: nat) | Paint(color: Color)

  /** One call on the console; `Paint` sets the foreground colour. */
  function Do(v: Video, s: State, act: Act): (t: State)
    requires Proper(v, s)
    ensures Proper(v, t)
  {
    match act
    case Put(ch) => PutChar(v, s, ch)
    case Clear => Cleared(v, s)
    case Key(key) => ReceiveKey(v, s, key)
    case Paint(color) => s.(con := s.con.(foreground := color))
  }

  function DoAll(v: Video, s: State, acts: seq<Act>): (t: State)
    requires Proper(v, s)
    ensures Proper(v, t)
  {
    if acts == [] then s else Do(v, DoAll(v, s, acts[..|acts| - 1]), acts[|acts| - 1])
  }

  lemma KeyDrawn(v: Video, s: State, key: nat)
    requires Proper(v, s) && Drawn(v, s)
    ensures Drawn(v, ReceiveKey(v, s, key)) && ReceiveKey(v, s, key).con.background == s.con.background
  {
    hide PutChar, DrawnPixel;
    var c := s.con;
    if key == 10 || key == 13 {
      PutCharDrawn(v, s, 10);
      PutCharKeepsSettings(v, s, 10);
      var t := PutChar(v, s, 10);
      SameGridDrawn(v, t, t.con.(lineReady := true));
    } else if (key == 8 || key == 0x7f) && c.inputLen > 0 {
      var d := s.(con := c.(inputLen := c.inputLen - 1));
      SameGridDrawn(v, s, d.con);
      PutCharDrawn(v, d, 8);
      PutCharKeepsSettings(v, d, 8);
    } else if 0x20 <= key < 0x7f && c.inputLen < INPUT_SIZE {
      var d := s.(con := c.(input := c.input[c.inputLen := key], inputLen := c.inputLen + 1));
      SameGridDrawn(v, s, d.con);
      PutCharDrawn(v, d, key);
      PutCharKeepsSettings(v, d, key);
    }
  }

  lemma ClearedDrawn(v: Video, s: State)
    requires Proper(v, s)
    ensures Drawn(v, Cleared(v, s))
  {
    hide FillRect, EmptyGrid, Encode, CellPixel;
  }

  lemma DoDrawn(v: Video, s: State, act: Act)
    requires Proper(v, s) && Drawn(v, s)
    ensures Drawn(v, Do(v, s, act)) && Do(v, s, act).con.background == s.con.background
  {
    hide PutChar, ReceiveKey, Cleared, DrawnPixel;
    match act
    case Put(ch) =>
      PutCharDrawn(v, s, ch);
      PutCharKeepsSettings(v, s, ch);
    case Clear =>
      ClearedDrawn(v, s);
      ClearedKeepsBackground(v, s);
    case Key(key) => KeyDrawn(v, s, key);
    case Paint(color) => SameGridDrawn(v, s, s.con.(foreground := color));
  }

  /** So they are after every run of calls, whatever the background. */
  lemma {:induction false} RunDrawn(v: Video, s: State, acts: seq<Act>)
    requires Proper(v, s) && Drawn(v, s)
    ensures Drawn(v, DoAll(v, s, acts)) && DoAll(v, s, acts).con.background == s.con.background
  {
    hide Drawn, Do;
    if acts != [] {
      RunDrawn(v, s, acts[..|acts| - 1]);
      DoDrawn(v, DoAll(v, s, acts[..|acts| - 1]), acts[|acts| - 1]);
    }
  }

  lemma RunInSync(v: Video, s: State, acts: seq<Act>)
    requires Proper(v, s) && DefaultBackground(v, s.con) && InSync(v, s)
    ensures InSync(v, DoAll(v, s, acts)) && DoAll(v, s, acts).con.background == s.con.background
  {
    hide InSync, Drawn, Encode, DoAll;
    DrawnIsInSync(v, s);
    RunDrawn(v, s, acts);
    DrawnIsInSync(v, DoAll(v, s, acts));
  }

  /** From a cleared console, picture and grid agree after every run exactly for a default-looking background. */
  lemma IncrementalIsFullRedraw(v: Video, s: State)
    requires Proper(v, s) && s.con.rows > 0 && s.con.columns > 0
    ensures DefaultBackground(v, s.con) <==> forall acts :: InSync(v, DoAll(v, Cleared(v, s), acts))
  {
    hide Picture, Encode, Do, Cleared;
    ClearedExactly(v, s);
    ClearedKeepsBackground(v, s);
    if DefaultBackground(v, s.con) {
      forall acts ensures InSync(v, DoAll(v, Cleared(v, s), acts)) {
        RunInSync(v, Cleared(v, s), acts);
      }
    } else {
      assert DoAll(v, Cleared(v, s), []) == Cleared(v, s);
    }
  }

  lemma ClearedKeepsBackground(v: Video, s: State)
    requires Proper(v, s)
    ensures Cleared(v, s).con.background == s.con.background
  {
  }
}
