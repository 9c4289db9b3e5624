/** The line being typed: its echo on the screen, and the line that is read. */
module ConsoleEcho {
  import opened Wrappers
  import opened Images
  import opened Pixels
  import opened Framebuffer
  import opened ConsoleModel
  import opened ConsoleDrawing
  import opened ConsoleText

  // ---------------------------------------------------------------- the echo of the line buffer

  /** How many cells before the cursor, in row-major order, cell (r, k) is. */
  function Behind(c: Con, r: int, k: int): int {
    (c.y - r) * c.columns + (c.x - k)
  }

  /** Read backwards from the cursor, the cells still on the screen are the typed bytes, last one first. */
  ghost predicate Echoes(c: Con)
    requires Ok(c)
  {
    EchoesUpTo(c)
  }

  /** The same for a cursor that may stand past the right edge. */
  ghost predicate EchoesUpTo(c: Con)
    requires Ok(c.(x := 0))
  {
    forall r, k {:trigger c.grid[r][k]} ::
      0 <= r < c.rows && 0 <= k < c.columns && 1 <= Behind(c, r, k) <= c.inputLen ==>
      c.grid[r][k].character == c.input[c.inputLen - Behind(c, r, k)]
  }

  lemma NextRow(y: int, r: int, columns: int)
    ensures (y + 1 - r) * columns == (y - r) * columns + columns
  {
  }

  /** Going to the next line moves the cursor forward to where it stood past the right edge. */
  lemma NewlineEchoes(v: Video, s: State)
    requires Proper(v, s.(con := s.con.(x := 0))) && s.con.rows > 0 && s.con.x == s.con.columns > 0
    requires EchoesUpTo(s.con)
    ensures Echoes(Newline(v, s).con)
  {
    hide ScrollGrid, ScrolledUp, Behind;
    var c, d := s.con, Newline(v, s).con;
    forall r, k | 0 <= r < d.rows && 0 <= k < d.columns && 1 <= Behind(d, r, k) <= d.inputLen
      ensures d.grid[r][k].character == d.input[d.inputLen - Behind(d, r, k)]
    {
      if c.y + 1 < c.rows {
        BehindNextLine(c, d, r, k);
      } else {
        BehindScrolled(c, d, r, k);
      }
    }
  }

  lemma BehindNextLine(c: Con, d: Con, r: int, k: int)
    requires d.y == c.y + 1 && d.x == 0 && c.x == c.columns == d.columns
    ensures Behind(d, r, k) == Behind(c, r, k)
  {
    NextRow(c.y, r, c.columns);
  }

  lemma BehindScrolled(c: Con, d: Con, r: int, k: int)
    requires d.y == c.y && d.x == 0 && c.x == c.columns == d.columns
    ensures Behind(d, r, k) == Behind(c, r + 1, k)
    ensures r == d.y && k >= 0 ==> Behind(d, r, k) <= 0
  {
    NextRow(c.y, r + 1, c.columns);
  }

  lemma SameRowBehind(c: Con, k: int)
    ensures Behind(c, c.y, k) == c.x - k
  {
  }

  /** A cell one column back in the same row, or any other cell, as the cursor advances by one column. */
  lemma BehindAdvanced(c: Con, d: Con, r: int, k: int)
    requires d.y == c.y && d.columns == c.columns
    ensures Behind(d, r, k) == Behind(c, r, k) + (d.x - c.x)
  {
  }

  /** Only the cursor's own cell is 0 behind it. */
  lemma BehindZero(c: Con, r: int, k: int)
    requires 0 <= k < c.columns && 0 <= c.x < c.columns && Behind(c, r, k) == 0
    ensures r == c.y && k == c.x
  {
    if r < c.y {
      NonNegativeProduct(c.y - r - 1, c.columns);
      NextRow(c.y - 1, r, c.columns);
    } else if r > c.y {
      NonNegativeProduct(r - c.y - 1, c.columns);
      NextRow(r - 1, c.y, c.columns);
      NegatedProduct(r - c.y, c.columns);
    }
  }

  lemma NonNegativeProduct(a: int, b: int)
    requires a >= 0 && b >= 0
    ensures a * b >= 0
  {
  }

  lemma NegatedProduct(a: int, b: int)
    ensures (-a) * b == -(a * b)
  {
  }

  /** Typing a byte: it is appended to the buffer and appears at the cursor. */
  lemma TypedEchoes(v: Video, s: State, ch: Octet)
    requires Proper(v, s) && s.con.rows > 0 && s.con.columns > 0 && Echoes(s.con)
    requires Printable(ch) && s.con.inputLen < INPUT_SIZE
    ensures var c := s.con;
            Echoes(WriteCell(v, s.(con := c.(input := c.input[c.inputLen := ch], inputLen := c.inputLen + 1)), ch).con)
  {
    hide RenderCell, SetCell, Newline, Behind;
    var c := s.con;
    var typed := c.(input := c.input[c.inputLen := ch], inputLen := c.inputLen + 1);
    var cell := Cell(ch, c.foreground, c.background);
    var put := typed.(grid := SetCell(c.grid, c.y, c.x, cell));
    var past := put.(x := c.x + 1);
    forall r, k {:trigger past.grid[r][k]}
      | 0 <= r < c.rows && 0 <= k < c.columns && 1 <= Behind(past, r, k) <= past.inputLen
      ensures past.grid[r][k].character == past.input[past.inputLen - Behind(past, r, k)]
    {
      BehindAdvanced(c, past, r, k);
      if Behind(c, r, k) == 0 {
        BehindZero(c, r, k);
      } else {
        SameRowBehind(c, k);
      }
    }
    if past.x >= c.columns {
      NewlineEchoes(v, State(past, RenderCell(s.img, v, put, put.y, put.x)));
    }
  }

  /** Erasing the last byte: the buffer gets shorter and its cell is now the cursor's. */
  lemma ErasedEchoes(v: Video, s: State)
    requires Proper(v, s) && Echoes(s.con) && s.con.inputLen > 0 && s.con.x > 2
    ensures Echoes(Backspace(v, s.(con := s.con.(inputLen := s.con.inputLen - 1))).con)
  {
    hide RenderCell, SetCell, Behind;
    var c := s.con;
    var d := Backspace(v, s.(con := c.(inputLen := c.inputLen - 1))).con;
    forall r, k {:trigger d.grid[r][k]} | 0 <= r < d.rows && 0 <= k < d.columns && 1 <= Behind(d, r, k) <= d.inputLen
      ensures d.grid[r][k].character == d.input[d.inputLen - Behind(d, r, k)]
    {
      BehindAdvanced(c, d, r, k);
      SameRowBehind(d, k);
    }
  }

  predicate IsEnter(key: nat) {
    key == 10 || key == 13
  }

  lemma KeyEchoes(v: Video, s: State, key: nat)
    requires Proper(v, s) && s.con.rows > 0 && s.con.columns > 0 && Echoes(s.con) && !IsEnter(key)
    ensures var t := ReceiveKey(v, s, key);
            Echoes(t.con) && t.con.rows == s.con.rows && t.con.columns == s.con.columns
  {
    hide WriteCell, Backspace, Behind;
    if key == 8 || key == 0x7f {
      if s.con.inputLen > 0 && s.con.x > 2 {
        ErasedEchoes(v, s);
      }
    } else if 0x20 <= key < 0x7f {
      if s.con.inputLen < INPUT_SIZE {
        TypedEchoes(v, s, key);
      }
    }
    KeyKeepsSize(v, s, key);
  }

  lemma KeyKeepsSize(v: Video, s: State, key: nat)
    requires Proper(v, s)
    ensures ReceiveKey(v, s, key).con.rows == s.con.rows && ReceiveKey(v, s, key).con.columns == s.con.columns
    ensures ReceiveKey(v, s, key).con.foreground == s.con.foreground
    ensures ReceiveKey(v, s, key).con.background == s.con.background
  {
    hide PutChar;
    if key == 10 || key == 13 {
      PutCharKeepsSettings(v, s, 10);
    } else if key == 8 || key == 0x7f {
      if s.con.inputLen > 0 {
        PutCharKeepsSettings(v, s.(con := s.con.(inputLen := s.con.inputLen - 1)), 8);
      }
    } else if 0x20 <= key < 0x7f && s.con.inputLen < INPUT_SIZE {
      var c := s.con.(input := s.con.input[s.con.inputLen := key], inputLen := s.con.inputLen + 1);
      PutCharKeepsSettings(v, s.(con := c), key);
    }
  }

  function Keys(v: Video, s: State, keys: seq<nat>): (t: State)
    requires Proper(v, s)
    ensures Proper(v, t)
  {
    if keys == [] then s else ReceiveKey(v, Keys(v, s, keys[..|keys| - 1]), keys[|keys| - 1])
  }

  /** From an empty line buffer on, the screen echoes the buffer after any run of keys without Enter. */
  lemma {:induction false} EchoAgreesWithBuffer(v: Video, s: State, keys: seq<nat>)
    requires Proper(v, s) && s.con.rows > 0 && s.con.columns > 0 && s.con.inputLen == 0
    requires forall i :: 0 <= i < |keys| ==> !IsEnter(keys[i])
    ensures var t := Keys(v, s, keys);
            Echoes(t.con) && t.con.rows == s.con.rows && t.con.columns == s.con.columns
  {
    hide ReceiveKey, Behind;
    if keys != [] {
      EchoAgreesWithBuffer(v, s, keys[..|keys| - 1]);
      KeyEchoes(v, Keys(v, s, keys[..|keys| - 1]), keys[|keys| - 1]);
    }
  }

  // ---------------------------------------------------------------- the line that is read

  /** A line editor without a screen: the line, and the column its cursor is in. */
  datatype Editor = Editor(line: seq<Octet>, column: nat)

  /** Bytes are appended up to the buffer size; the last one can be erased from the fourth column on. */
  function Edit(e: Editor, columns: nat, key: nat): Editor {
    if IsEnter(key) then Editor(e.line, 0)
    else if key == 8 || key == 0x7f then
      if e.line != [] && e.column > 2 then Editor(e.line[..|e.line| - 1], e.column - 1) else e
    else if 0x20 <= key < 0x7f && |e.line| < INPUT_SIZE then
      Editor(e.line + [key], if e.column + 1 < columns then e.column + 1 else 0)
    else e
  }

  function EditAll(e: Editor, columns: nat, keys: seq<nat>): Editor {
    if keys == [] then e else Edit(EditAll(e, columns, keys[..|keys| - 1]), columns, keys[|keys| - 1])
  }

  function LineOf(c: Con): Editor
    requires c.inputLen <= |c.input|
  {
    Editor(c.input[..c.inputLen], c.x)
  }

  lemma KeyEdits(v: Video, s: State, key: nat)
    requires Proper(v, s) && s.con.rows > 0 && s.con.columns > 0
    ensures LineOf(ReceiveKey(v, s, key).con) == Edit(LineOf(s.con), s.con.columns, key)
    ensures ReceiveKey(v, s, key).con.lineReady == (s.con.lineReady || IsEnter(key))
  {
    hide RenderCell, SetCell, ScrollGrid, ScrolledUp;
  }

  /** `read_line` hands out the bytes of a completed line, as many as fit, and empties the buffer. */
  lemma {:induction false} LineReadIsLineTyped(v: Video, s: State, keys: seq<nat>, enter: nat, room: nat)
    requires Proper(v, s) && s.con.rows > 0 && s.con.columns > 0 && s.con.inputLen == 0 && !s.con.lineReady
    requires forall i :: 0 <= i < |keys| ==> !IsEnter(keys[i])
    requires IsEnter(enter)
    ensures var line := EditAll(Editor([], s.con.x), s.con.columns, keys).line;
            var before, done := Keys(v, s, keys).con, ReceiveKey(v, Keys(v, s, keys), enter).con;
            && ReadLine(before, room) == (None, before)
            && ReadLine(done, room).0 == Some(line[..Min(|line|, room)])
            && ReadLine(done, room).1 == done.(inputLen := 0, lineReady := false)
  {
    hide PutChar, ReceiveKey, Edit;
    assert LineOf(s.con) == Editor([], s.con.x);
    TypedLine(v, s, keys);
    EnterCompletes(v, Keys(v, s, keys), enter);
    var c := Keys(v, s, keys).con;
    assert c.input[..c.inputLen][..Min(c.inputLen, room)] == c.input[..Min(c.inputLen, room)];
  }

  lemma EnterCompletes(v: Video, s: State, enter: nat)
    requires Proper(v, s) && IsEnter(enter)
    ensures var c := ReceiveKey(v, s, enter).con;
            c.lineReady && c.input == s.con.input && c.inputLen == s.con.inputLen
  {
    hide PutChar;
    PutCharKeepsSettings(v, s, 10);
  }

  lemma {:induction false} TypedLine(v: Video, s: State, keys: seq<nat>)
    requires Proper(v, s) && s.con.rows > 0 && s.con.columns > 0
    ensures var t := Keys(v, s, keys).con;
            && t.rows == s.con.rows && t.columns == s.con.columns
            && t.foreground == s.con.foreground && t.background == s.con.background
            && LineOf(t) == EditAll(LineOf(s.con), s.con.columns, keys)
            && t.lineReady == (s.con.lineReady || exists i :: 0 <= i < |keys| && IsEnter(keys[i]))
  {
    hide ReceiveKey, Edit, IsEnter;
    if keys != [] {
      var before, key := keys[..|keys| - 1], keys[|keys| - 1];
      TypedLine(v, s, before);
      KeyEdits(v, Keys(v, s, before), key);
      KeyKeepsSize(v, Keys(v, s, before), key);
      assert forall i :: 0 <= i < |before| ==> keys[i] == before[i];
      assert keys[|before|] == key;
    }
  }

  // ---------------------------------------------------------------- the screen while keys are typed

  /** The bytes a key writes on the screen. */
  function EchoOf(e: Editor, key: nat): seq<Octet> {
    if IsEnter(key) then [10]
    else if key == 8 || key == 0x7f then if e.line != [] && e.column > 2 then [8] else []
    else if 0x20 <= key < 0x7f && |e.line| < INPUT_SIZE then [key]
    else []
  }

  /** All bytes a run of keys writes. */
  function Transcript(e: Editor, columns: nat, keys: seq<nat>): seq<Octet> {
    if keys == [] then []
    else
      var before := keys[..|keys| - 1];
      Transcript(e, columns, before) + EchoOf(EditAll(e, columns, before), keys[|keys| - 1])
  }

  lemma LayOneMore(p: Page, rows: nat, columns: nat, text: seq<Octet>, ch: Octet, foreground: Color, background: Color)
    requires PageOk(p, rows, columns)
    ensures LayAll(p, rows, columns, text + [ch], foreground, background) ==
            Lay(LayAll(p, rows, columns, text, foreground, background), rows, columns, ch, foreground, background)
  {
    hide Lay;
    assert (text + [ch])[..|text|] == text;
  }

  /** A key changes cells and cursor as the bytes it writes do. */
  lemma KeyShows(v: Video, s: State, p: Page, key: nat)
    requires Proper(v, s) && PageOk(p, s.con.rows, s.con.columns) && Shows(s.con, p)
    ensures var (c, t) := (s.con, ReceiveKey(v, s, key).con);
            && t.rows == c.rows && t.columns == c.columns
            && Shows(t, LayAll(p, c.rows, c.columns, EchoOf(LineOf(c), key), c.foreground, c.background))
  {
    hide PutChar, Lay, LayAll, Shows;
    var c, e := s.con, LineOf(s.con);
    KeyKeepsSize(v, s, key);
    LayNothing(p, c.rows, c.columns, c.foreground, c.background);
    if IsEnter(key) {
      LayByte(p, c.rows, c.columns, 10, c.foreground, c.background);
      PutCharShows(v, s, p, 10);
      SameCells(PutChar(v, s, 10).con, ReceiveKey(v, s, key).con,
                LayAll(p, c.rows, c.columns, [10], c.foreground, c.background));
    } else if key == 8 || key == 0x7f {
      if c.inputLen > 0 && c.x > 2 {
        var d := c.(inputLen := c.inputLen - 1);
        LayByte(p, c.rows, c.columns, 8, c.foreground, c.background);
        SameCells(c, d, p);
        PutCharShows(v, s.(con := d), p, 8);
      }
    } else if 0x20 <= key < 0x7f && c.inputLen < INPUT_SIZE {
      var d := c.(input := c.input[c.inputLen := key], inputLen := c.inputLen + 1);
      LayByte(p, c.rows, c.columns, key, c.foreground, c.background);
      SameCells(c, d, p);
      PutCharShows(v, s.(con := d), p, key);
    }
  }

  lemma LayByte(p: Page, rows: nat, columns: nat, ch: Octet, foreground: Color, background: Color)
    requires PageOk(p, rows, columns)
    ensures LayAll(p, rows, columns, [ch], foreground, background)
            == Lay(p, rows, columns, ch, foreground, background)
  {
    hide Lay;
    LayOneMore(p, rows, columns, [], ch, foreground, background);
    assert [] + [ch] == [ch];
  }

  lemma LayNothing(p: Page, rows: nat, columns: nat, foreground: Color, background: Color)
    requires PageOk(p, rows, columns)
    ensures LayAll(p, rows, columns, [], foreground, background) == p
  {
  }

  lemma SameCells(c: Con, d: Con, p: Page)
    requires Ok(c) && Ok(d) && c.rows == d.rows && c.columns == d.columns && PageOk(p, c.rows, c.columns)
    requires c.x == d.x && c.y == d.y && c.grid == d.grid && Shows(c, p)
    ensures Shows(d, p)
  {
  }

  /** After any keys, Enter included, the screen shows the page with all that they wrote. */
  lemma {:induction false} KeysShow(v: Video, s: State, p: Page, keys: seq<nat>)
    requires Proper(v, s) && PageOk(p, s.con.rows, s.con.columns) && Shows(s.con, p)
    ensures var (c, t) := (s.con, Keys(v, s, keys).con);
            && t.rows == c.rows && t.columns == c.columns
            && Shows(t, LayAll(p, c.rows, c.columns, Transcript(LineOf(c), c.columns, keys),
                               c.foreground, c.background))
  {
    hide ReceiveKey, Lay, Shows, EditAll, EchoOf;
    if keys != [] {
      var before, key := keys[..|keys| - 1], keys[|keys| - 1];
      var c := s.con;
      KeysShow(v, s, p, before);
      TypedLine(v, s, before);
      var text := Transcript(LineOf(c), c.columns, before);
      var echo := EchoOf(EditAll(LineOf(c), c.columns, before), key);
      KeyShows(v, Keys(v, s, before), LayAll(p, c.rows, c.columns, text, c.foreground, c.background), key);
      EchoIsShort(EditAll(LineOf(c), c.columns, before), key);
      LayShort(p, c.rows, c.columns, text, echo, c.foreground, c.background);
    }
  }

  lemma EchoIsShort(e: Editor, key: nat)
    ensures |EchoOf(e, key)| <= 1
  {
  }

  lemma LayShort(p: Page, rows: nat, columns: nat, text: seq<Octet>, echo: seq<Octet>,
                 foreground: Color, background: Color)
    requires PageOk(p, rows, columns) && |echo| <= 1
    ensures var q := LayAll(p, rows, columns, text, foreground, background);
            LayAll(p, rows, columns, text + echo, foreground, background)
            == LayAll(q, rows, columns, echo, foreground, background)
  {
    hide Lay;
    if echo == [] {
      assert text + echo == text;
    } else {
      assert echo == [echo[0]] && echo[..0] == [];
      LayOneMore(p, rows, columns, text, echo[0], foreground, background);
    }
  }

  // ---------------------------------------------------------------- erasing leaves no trace

  /** The cursor is on the last line, with nothing behind it. */
  ghost predicate BlankAhead(p: Page, rows: nat, columns: nat) {
    && PageOk(p, rows, columns) && p.y == |p.lines| - 1
    && forall k :: p.x <= k < columns ==> p.lines[p.y][k] == EMPTY
  }

  lemma OnPageBlankAhead(p: Page, rows: nat, columns: nat, cell: Cell)
    requires BlankAhead(p, rows, columns)
    ensures BlankAhead(OnPage(p, rows, columns, cell), rows, columns)
    ensures OnPage(p, rows, columns, cell).x == if p.x + 1 < columns then p.x + 1 else 0
    ensures p.x + 1 < columns ==> Erase(OnPage(p, rows, columns, cell), rows, columns) == p
  {
    var q := OnPage(p, rows, columns, cell);
    if p.x + 1 < columns {
      var line := q.lines[p.y];
      assert line[p.x := EMPTY] == p.lines[p.y];
      assert q.lines[p.y := line[p.x := EMPTY]] == p.lines;
    }
  }

  /** What an editor's line consists of, and where its cursor is on the page. */
  ghost predicate LineFits(e: Editor, p: Page, rows: nat, columns: nat, foreground: Color, background: Color)
    requires PageOk(p, rows, columns)
  {
    && (forall i :: 0 <= i < |e.line| ==> 0x20 <= e.line[i] < 0x7f)
    && BlankAhead(LayAll(p, rows, columns, e.line, foreground, background), rows, columns)
    && LayAll(p, rows, columns, e.line, foreground, background).x == e.column
  }

  lemma {:induction false} LineLaid(p: Page, rows: nat, columns: nat, line: seq<Octet>,
                                    foreground: Color, background: Color)
    requires PageOk(p, rows, columns) && BlankAhead(p, rows, columns)
    requires forall i :: 0 <= i < |line| ==> 0x20 <= line[i] < 0x7f
    ensures BlankAhead(LayAll(p, rows, columns, line, foreground, background), rows, columns)
  {
    hide BlankAhead, OnPage;
    if line != [] {
      var before := line[..|line| - 1];
      LineLaid(p, rows, columns, before, foreground, background);
      OnPageBlankAhead(LayAll(p, rows, columns, before, foreground, background), rows, columns,
                       Cell(line[|line| - 1], foreground, background));
    }
  }

  lemma TypedFits(e: Editor, p: Page, rows: nat, columns: nat, key: nat, foreground: Color, background: Color)
    requires PageOk(p, rows, columns) && BlankAhead(p, rows, columns)
    requires LineFits(e, p, rows, columns, foreground, background) && 0x20 <= key < 0x7f
    ensures var f := Editor(e.line + [key], if e.column + 1 < columns then e.column + 1 else 0);
            && LineFits(f, p, rows, columns, foreground, background)
            && Lay(LayAll(p, rows, columns, e.line, foreground, background), rows, columns, key, foreground, background)
               == LayAll(p, rows, columns, f.line, foreground, background)
  {
    hide BlankAhead, OnPage, Erase, LayAll;
    var q := LayAll(p, rows, columns, e.line, foreground, background);
    OnPageBlankAhead(q, rows, columns, Cell(key, foreground, background));
    LayOneMore(p, rows, columns, e.line, key, foreground, background);
  }

  /** A byte that did not wrap can be erased without a trace. */
  lemma ErasedFits(e: Editor, p: Page, rows: nat, columns: nat, foreground: Color, background: Color)
    requires PageOk(p, rows, columns) && BlankAhead(p, rows, columns)
    requires LineFits(e, p, rows, columns, foreground, background) && e.line != [] && e.column > 0
    ensures var f := Editor(e.line[..|e.line| - 1], e.column - 1);
            && LineFits(f, p, rows, columns, foreground, background)
            && Lay(LayAll(p, rows, columns, e.line, foreground, background), rows, columns, 8, foreground, background)
               == LayAll(p, rows, columns, f.line, foreground, background)
  {
    hide BlankAhead, OnPage, Erase, LayAll;
    var n := |e.line| - 1;
    var line, last := e.line[..n], e.line[n];
    LineLaid(p, rows, columns, line, foreground, background);
    var q := LayAll(p, rows, columns, line, foreground, background);
    OnPageBlankAhead(q, rows, columns, Cell(last, foreground, background));
    assert line + [last] == e.line;
    LayOneMore(p, rows, columns, line, last, foreground, background);
  }

  /** One key: the page with the old line and the key's echo is the page with the new line. */
  lemma EditFits(e: Editor, p: Page, rows: nat, columns: nat, key: nat, foreground: Color, background: Color)
    requires PageOk(p, rows, columns) && BlankAhead(p, rows, columns)
    requires LineFits(e, p, rows, columns, foreground, background) && !IsEnter(key)
    ensures var q, f := LayAll(p, rows, columns, e.line, foreground, background), Edit(e, columns, key);
            && LineFits(f, p, rows, columns, foreground, background)
            && LayAll(q, rows, columns, EchoOf(e, key), foreground, background)
               == LayAll(p, rows, columns, f.line, foreground, background)
  {
    hide BlankAhead, LineFits, Lay, LayAll;
    var q := LayAll(p, rows, columns, e.line, foreground, background);
    LayNothing(q, rows, columns, foreground, background);
    if (key == 8 || key == 0x7f) && e.line != [] && e.column > 2 {
      ErasedFits(e, p, rows, columns, foreground, background);
      LayByte(q, rows, columns, 8, foreground, background);
    } else if 0x20 <= key < 0x7f && |e.line| < INPUT_SIZE {
      TypedFits(e, p, rows, columns, key, foreground, background);
      LayByte(q, rows, columns, key, foreground, background);
    }
  }

  /** All that was typed and erased again leaves the page as if only the remaining line had been typed. */
  lemma {:induction false} ErasuresLeaveNoTrace(p: Page, rows: nat, columns: nat, keys: seq<nat>,
                                                foreground: Color, background: Color)
    requires PageOk(p, rows, columns) && BlankAhead(p, rows, columns)
    requires forall i :: 0 <= i < |keys| ==> !IsEnter(keys[i])
    ensures var e := EditAll(Editor([], p.x), columns, keys);
            && LineFits(e, p, rows, columns, foreground, background)
            && LayAll(p, rows, columns, Transcript(Editor([], p.x), columns, keys), foreground, background)
               == LayAll(p, rows, columns, e.line, foreground, background)
  {
    hide BlankAhead, Edit, EchoOf, Lay, LineFits;
    if keys == [] {
      NothingTyped(p, rows, columns, foreground, background);
    } else {
      var start, before, key := Editor([], p.x), keys[..|keys| - 1], keys[|keys| - 1];
      ErasuresLeaveNoTrace(p, rows, columns, before, foreground, background);
      var e := EditAll(start, columns, before);
      EditFits(e, p, rows, columns, key, foreground, background);
      EchoIsShort(e, key);
      LayShort(p, rows, columns, Transcript(start, columns, before), EchoOf(e, key), foreground, background);
    }
  }

  lemma NothingTyped(p: Page, rows: nat, columns: nat, foreground: Color, background: Color)
    requires PageOk(p, rows, columns) && BlankAhead(p, rows, columns)
    ensures LineFits(Editor([], p.x), p, rows, columns, foreground, background)
  {
  }

  /**
   * From an empty line buffer on, with nothing behind the cursor: after any keys without Enter the screen is that of
   * the page with the line in the buffer and nothing else typed, so what was erased is blank again.
   */
  lemma ScreenShowsOnlyTheLine(v: Video, s: State, p: Page, keys: seq<nat>)
    requires Proper(v, s) && BlankAhead(p, s.con.rows, s.con.columns) && Shows(s.con, p) && s.con.inputLen == 0
    requires forall i :: 0 <= i < |keys| ==> !IsEnter(keys[i])
    ensures var (c, t) := (s.con, Keys(v, s, keys).con);
            && t.rows == c.rows && t.columns == c.columns
            && Shows(t, LayAll(p, c.rows, c.columns, t.input[..t.inputLen], c.foreground, c.background))
  {
    hide Shows, LayAll, EditAll, Transcript, Keys, LineFits;
    var c := s.con;
    assert LineOf(c) == Editor([], p.x) by { SameCursor(c, p); }
    KeysShow(v, s, p, keys);
    TypedLine(v, s, keys);
    ErasuresLeaveNoTrace(p, c.rows, c.columns, keys, c.foreground, c.background);
  }

  // ---------------------------------------------------------------- the prompt

  /** The two bytes of the prompt: `>` and a space. */
  const PROMPT: seq<Octet> := [62, 32]

  lemma WriteOneMore(v: Video, s: State, text: seq<Octet>, ch: Octet)
    requires Proper(v, s)
    ensures WriteStr(v, s, text + [ch]) == PutChar(v, WriteStr(v, s, text), ch)
  {
    hide PutChar;
    assert (text + [ch])[..|text|] == text;
  }

  lemma TwoBytes(v: Video, s: State, a: Octet, b: Octet)
    requires Proper(v, s)
    ensures WriteStr(v, s, [a, b]) == PutChar(v, PutChar(v, s, a), b)
  {
    hide PutChar, WriteStr;
    WriteOneMore(v, s, [], a);
    WriteOneMore(v, s, [a], b);
    assert [] + [a] == [a] && [a] + [b] == [a, b];
    assert WriteStr(v, s, []) == s by { NothingWritten(v, s); }
  }

  lemma NothingWritten(v: Video, s: State)
    requires Proper(v, s)
    ensures WriteStr(v, s, []) == s
  {
  }

  /** The page with the prompt on it. */
  lemma PromptPage(rows: nat, columns: nat, foreground: Color, background: Color)
    requires rows > 0 && columns > 2
    ensures var p := LayAll(NewPage(columns), rows, columns, PROMPT, foreground, background);
            && p == Page([BlankLine(columns)[0 := Cell(62, foreground, background)]
                                           [1 := Cell(32, foreground, background)]], 0, 2)
            && BlankAhead(p, rows, columns)
  {
    var blank := NewPage(columns);
    LayByte(blank, rows, columns, 62, foreground, background);
    LayOneMore(blank, rows, columns, [62], 32, foreground, background);
    assert PROMPT == [62] + [32];
  }

  /** On a cleared console: `>` and a space at the start of the first row, all else empty, the cursor behind them. */
  ghost predicate Prompted(c: Con)
    requires Ok(c)
  {
    && c.x == 2 && c.y == 0
    && forall r, k {:trigger c.grid[r][k]} :: 0 <= r < c.rows && 0 <= k < c.columns ==>
         c.grid[r][k] == if r == 0 && k == 0 then Cell(62, c.foreground, c.background)
                         else if r == 0 && k == 1 then Cell(32, c.foreground, c.background) else EMPTY
  }

  lemma PromptShown(v: Video, s: State)
    requires Proper(v, s) && s.con.rows > 0 && s.con.columns > 2
    ensures var t := PutChar(v, PutChar(v, Cleared(v, s), 62), 32);
            && Prompted(t.con) && t.con.rows == s.con.rows && t.con.columns == s.con.columns
            && Shows(t.con, LayAll(NewPage(t.con.columns), t.con.rows, t.con.columns, PROMPT,
                                   t.con.foreground, t.con.background))
  {
    hide PutChar, Cleared, LayAll;
    ScreenIsWindowOnText(v, s, PROMPT);
    TwoBytes(v, Cleared(v, s), 62, 32);
    PromptPage(s.con.rows, s.con.columns, s.con.foreground, s.con.background);
  }
}
