/** The framebuffer: a backbuffer that is drawn to, the visible memory, and the dirty rectangle between them. */
module Framebuffer {
  import opened Wrappers
  import opened Images
  import opened Pixels

  const MAX_WIDTH: nat := 1920
  const MAX_HEIGHT: nat := 1080
  const MAX_PIXELS: nat := 1920 * 1080

  // ---------------------------------------------------------------- the dirty rectangle

  /** What may differ between the backbuffer and the screen: nothing, or [minX, maxX) by [minY, maxY). */
  datatype Dirt = Clean | Dirty(minX: nat, minY: nat, maxX: nat, maxY: nat) {
    predicate Has(x: int, y: int) {
      Dirty? && minX <= x < maxX && minY <= y < maxY
    }

    predicate Within(w: nat, h: nat) {
      Dirty? ==> minX < maxX <= w && minY < maxY <= h
    }
  }

  /** The least dirty rectangle around `d` and the part of the given one that is on the screen. */
  function Marked(d: Dirt, w: nat, h: nat, x: nat, y: nat, cols: nat, rows: nat): (r: Dirt)
    ensures forall i, j :: d.Has(i, j) ==> r.Has(i, j)
    ensures forall i, j :: x <= i < x + cols && y <= j < y + rows && i < w && j < h ==> r.Has(i, j)
    ensures d.Within(w, h) ==> r.Within(w, h)
  {
    if cols == 0 || rows == 0 || x >= w || y >= h then d
    else
      var maxX, maxY := Min(x + cols, w), Min(y + rows, h);
      if d.Clean? then Dirty(x, y, maxX, maxY)
      else Dirty(Min(d.minX, x), Min(d.minY, y), Max(d.maxX, maxX), Max(d.maxY, maxY))
  }

  /** Marking dirties no more than it must: any rectangle around both parts is around the result. */
  lemma MarkedIsLeast(d: Dirt, w: nat, h: nat, x: nat, y: nat, cols: nat, rows: nat, around: Dirt)
    requires d.Within(w, h) && cols > 0 && rows > 0 && x < w && y < h && around.Dirty?
    requires forall i, j :: d.Has(i, j) ==> around.Has(i, j)
    requires forall i, j :: x <= i < x + cols && y <= j < y + rows && i < w && j < h ==> around.Has(i, j)
    ensures forall i, j :: Marked(d, w, h, x, y, cols, rows).Has(i, j) ==> around.Has(i, j)
  {
    var endX, endY := Min(x + cols, w) - 1, Min(y + rows, h) - 1;
    assert around.Has(x, y) && around.Has(endX, endY);
    if d.Dirty? {
      assert d.Has(d.minX, d.minY) && d.Has(d.maxX - 1, d.maxY - 1);
      assert around.Has(d.minX, d.minY) && around.Has(d.maxX - 1, d.maxY - 1);
    }
  }

  lemma MarkedNothing(d: Dirt, w: nat, h: nat, x: nat, y: nat, cols: nat, rows: nat)
    requires cols == 0 || rows == 0 || x >= w || y >= h
    ensures Marked(d, w, h, x, y, cols, rows) == d
  {
  }

  /** The two rectangles of a scroll make the whole screen dirty. */
  lemma ScrollMarksAll(d: Dirt, w: nat, h: nat, pixels: nat)
    requires d.Within(w, h) && 0 < pixels < h && w > 0
    ensures Marked(Marked(d, w, h, 0, 0, w, h - pixels), w, h, 0, h - pixels, w, pixels) == Dirty(0, 0, w, h)
  {
  }

  lemma MarkedClipped(d: Dirt, w: nat, h: nat, x: nat, y: nat, cols: nat, rows: nat)
    requires x < w && y < h
    ensures Marked(d, w, h, x, y, cols, rows) == Marked(d, w, h, x, y, Min(x + cols, w) - x, Min(y + rows, h) - y)
  {
  }

  /** Outside the dirty rectangle each visible byte is the byte of the backbuffer's pixel. */
  ghost predicate Agree(img: Image, shown: seq<seq<Byte>>, w: nat, h: nat, d: Dirt)
    requires IsImage(img, w, h) && |shown| == h && forall y :: 0 <= y < h ==> |shown[y]| == 4 * w
  {
    forall y, j {:trigger shown[y][j]} :: 0 <= y < h && 0 <= j < 4 * w && !d.Has(j / 4, y) ==>
      shown[y][j] == ByteAt(img[y], j)
  }

  /** Drawing inside a rectangle and marking it keeps the agreement everywhere else. */
  lemma DrawKeepsAgreement(img: Image, after: Image, shown: seq<seq<Byte>>, w: nat, h: nat, d: Dirt,
                           x: nat, y: nat, cols: nat, rows: nat)
    requires IsImage(img, w, h) && IsImage(after, w, h)
    requires |shown| == h && forall y :: 0 <= y < h ==> |shown[y]| == 4 * w
    requires Agree(img, shown, w, h, d)
    requires forall j, i {:trigger after[j][i]} :: 0 <= j < h && 0 <= i < w ==>
               (x <= i < x + cols && y <= j < y + rows) || after[j][i] == img[j][i]
    ensures Agree(after, shown, w, h, Marked(d, w, h, x, y, cols, rows))
  {
    hide ByteOf, Marked;
  }

  class Framebuffer {
    const width: nat
    const height: nat
    const pitch: nat
    const format: Format
    const back: array<Pixel>
    const front: array<Byte>
    var dirty: bool
    var minX: nat
    var minY: nat
    var maxX: nat
    var maxY: nat

    constructor (width: nat, height: nat, pitch: nat, format: Format, front: array<Byte>)
      ensures this.width == width && this.height == height && this.pitch == pitch && this.format == format
      ensures this.front == front && fresh(back) && back.Length == MAX_PIXELS && !dirty
    {
      this.width, this.height, this.pitch, this.format, this.front := width, height, pitch, format, front;
      back := new Pixel[MAX_PIXELS](_ => 0);
      dirty, minX, minY, maxX, maxY := false, 0, 0, 0, 0;
    }

    /** What `init` checks, and that the visible memory has a row of `pitch` bytes for each line. */
    ghost predicate Geometry() {
      && 0 < width <= MAX_WIDTH && 0 < height <= MAX_HEIGHT
      && back.Length == MAX_PIXELS
      && Fits(back.Length, width, height, width)
      && Fits(front.Length, BYTES_PER_PIXEL * width, height, pitch)
    }

    ghost function Image(): (img: Image)
      requires Geometry()
      reads back
      ensures IsImage(img, width, height)
    {
      Rows(back[..], width, height, width)
    }

    /** The visible bytes of each line, without the padding up to the pitch. */
    ghost function Shown(): (shown: seq<seq<Byte>>)
      requires Geometry()
      reads front
      ensures |shown| == height && forall y :: 0 <= y < height ==> |shown[y]| == 4 * width
    {
      Rows(front[..], BYTES_PER_PIXEL * width, height, pitch)
    }

    ghost function Dirt(): Dirt
      reads this
    {
      if dirty then Dirty(minX, minY, maxX, maxY) else Clean
    }

    ghost predicate Valid()
      reads this, back, front
    {
      Geometry() && Dirt().Within(width, height) && Agree(Image(), Shown(), width, height, Dirt())
    }

    // -------------------------------------------------------------- marking

    method MarkDirty(x: nat, y: nat, cols: nat, rows: nat)
      requires Dirt().Within(width, height)
      modifies this
      ensures Dirt() == Marked(old(Dirt()), width, height, x, y, cols, rows)
    {
      if cols == 0 || rows == 0 {
        return;
      }
      if x >= width || y >= height {
        return;
      }
      // The source saturates at the largest address, far beyond the width and height it then takes.
      var endX, endY := Min(x + cols, width), Min(y + rows, height);
      if endX <= x || endY <= y {
        return;
      }
      if !dirty {
        dirty := true;
        minX, minY, maxX, maxY := x, y, endX, endY;
      } else {
        minX := Min(minX, x);
        minY := Min(minY, y);
        maxX := Max(maxX, endX);
        maxY := Max(maxY, endY);
      }
    }

    // -------------------------------------------------------------- writes to one row

    /** `fill` on the pixels [x, ex) of row y. */
    method FillRow(x: nat, ex: nat, y: nat, p: Pixel)
      requires Geometry() && y < height && x <= ex <= width
      modifies back
      ensures Image() == FillRect(old(Image()), width, height, x, y, ex, y + 1, p)
    {
      hide Rows, FillRect;
      ghost var before := back[..];
      forall i | 0 <= i < ex - x {
        back[y * width + x + i] := p;
      }
      FillFlat(before, back[..], width, height, y, x, ex, p);
    }

    /** `ptr::copy`: moves `n` pixels of the flat buffer, overlapping or not. */
    method MoveRun(src: nat, dst: nat, n: nat)
      requires src + n <= back.Length && dst + n <= back.Length
      modifies back
      ensures forall i :: 0 <= i < back.Length && !(dst <= i < dst + n) ==> back[i] == old(back[i])
      ensures back[dst..dst + n] == old(back[src..src + n])
    {
      forall i | dst <= i < dst + n {
        back[i] := back[src + (i - dst)];
      }
    }

    /** Moves `cols` pixels from one row to another or along the same row. */
    method MoveRow(sx: nat, sy: nat, dx: nat, dy: nat, cols: nat)
      requires Geometry() && sy < height && dy < height && sx + cols <= width && dx + cols <= width
      modifies back
      ensures Image() == CopyRow(old(Image()), width, height, sx, sy, dx, dy, cols)
    {
      hide Rows, CopyRow, Fits;
      ghost var before := back[..];
      RowsFit(back.Length, width, height, sy, dy);
      var src, dst := sy * width + sx, dy * width + dx;
      MoveRun(src, dst, cols);
      assert back[..][dst..dst + cols] == before[src..src + cols];
      MoveFlat(before, back[..], width, height, sx, sy, dx, dy, cols);
    }

    // -------------------------------------------------------------- drawing

    method PutPixel(x: nat, y: nat, color: Color)
      requires Valid()
      modifies this, back
      ensures Valid()
      ensures Image() == FillRect(old(Image()), width, height, x, y, x + 1, y + 1, Encode(format, color))
      ensures x < width && y < height && Separate(format) ==> Decode(format, Image()[y][x]) == color
      ensures Dirt() == Marked(old(Dirt()), width, height, x, y, 1, 1)
    {
      hide Encode, Decode, Separate;
      if Separate(format) {
        DecodeEncode(format, color);
      }
      if x >= width || y >= height {
        SameImage(Image(), FillRect(Image(), width, height, x, y, x + 1, y + 1, Encode(format, color)), width, height);
        return;
      }
      FillRow(x, x + 1, y, Encode(format, color));
      MarkDirty(x, y, 1, 1);
      DrawKeepsAgreement(old(Image()), Image(), Shown(), width, height, old(Dirt()), x, y, 1, 1);
    }

    method Clear(color: Color)
      requires Geometry() && Dirt().Within(width, height)
      modifies this, back
      ensures Valid()
      ensures Image() == FillRect(old(Image()), width, height, 0, 0, width, height, Encode(format, color))
      ensures Dirt() == Dirty(0, 0, width, height)
    {
      var pixel := Encode(format, color);
      BufferFits(width, height);
      forall i | 0 <= i < width * height {
        back[i] := pixel;
      }
      forall y, x | 0 <= y < height && 0 <= x < width ensures Image()[y][x] == pixel {
        RowsApart(y, height, width);
      }
      SameImage(Image(), FillRect(old(Image()), width, height, 0, 0, width, height, pixel), width, height);
      MarkDirty(0, 0, width, height);
    }

    method DrawRect(x: nat, y: nat, cols: nat, rows: nat, color: Color)
      requires Valid()
      modifies this, back
      ensures Valid()
      ensures Image() == FillRect(old(Image()), width, height, x, y, x + cols, y + rows, Encode(format, color))
      ensures Dirt() == Marked(old(Dirt()), width, height, x, y, cols, rows)
    {
      hide Rows, FillRect, Marked, Agree, Encode;
      var pixel := Encode(format, color);
      ghost var goal := FillRect(Image(), width, height, x, y, x + cols, y + rows, pixel);
      if cols == 0 || rows == 0 || x >= width || y >= height {
        SameImage(Image(), goal, width, height);
        MarkedNothing(Dirt(), width, height, x, y, cols, rows);
        return;
      }
      var endX, endY := Min(x + cols, width), Min(y + rows, height);
      if endX <= x || endY <= y {
        return;
      }
      SameImage(Image(), FillRect(Image(), width, height, x, y, endX, y, pixel), width, height);
      for py := y to endY
        modifies back
        invariant Image() == FillRect(old(Image()), width, height, x, y, endX, py, pixel)
      {
        FillRow(x, endX, py, pixel);
        SameImage(Image(), FillRect(old(Image()), width, height, x, y, endX, py + 1, pixel), width, height);
      }
      SameImage(Image(), goal, width, height);
      MarkDirty(x, y, endX - x, endY - y);
      MarkedClipped(old(Dirt()), width, height, x, y, cols, rows);
      DrawKeepsAgreement(old(Image()), Image(), Shown(), width, height, old(Dirt()), x, y, endX - x, endY - y);
    }

    /** Copies the part of a rectangle that is inside the screen at both places, row by row from the top. */
    method CopyRect(sx: nat, sy: nat, dx: nat, dy: nat, cols: nat, rows: nat)
      requires Valid()
      modifies this, back
      ensures Valid()
      ensures var c, r := Clipped(width, sx, dx, cols), Clipped(height, sy, dy, rows);
              if c == 0 || r == 0 then Image() == old(Image()) && Dirt() == old(Dirt())
              else
                && AreaFits(width, height, sx, sy, dx, dy, c, r)
                && Image() == CopyRows(old(Image()), width, height, sx, sy, dx, dy, c, r)
                && Dirt() == Marked(old(Dirt()), width, height, dx, dy, c, r)
    {
      hide Rows, CopyRow, Agree, Marked;
      if cols == 0 || rows == 0 {
        return;
      }
      if sx >= width || sy >= height || dx >= width || dy >= height {
        return;
      }
      var c := Min(Min(cols, width - sx), width - dx);
      var r := Min(Min(rows, height - sy), height - dy);
      if c == 0 || r == 0 {
        return;
      }
      for row := 0 to r
        modifies back
        invariant Image() == CopyRows(old(Image()), width, height, sx, sy, dx, dy, c, row)
      {
        MoveRow(sx, sy + row, dx, dy + row, c);
      }
      MarkDirty(dx, dy, c, r);
      CopyRowsElsewhere(old(Image()), width, height, sx, sy, dx, dy, c, r);
      DrawKeepsAgreement(old(Image()), Image(), Shown(), width, height, old(Dirt()), dx, dy, c, r);
    }

    /** Moves the picture up; the rows exposed at the bottom get `color`. */
    method ScrollUp(pixels: nat, color: Color)
      requires Valid()
      modifies this, back
      ensures Valid()
      ensures Image() == ScrolledUp(old(Image()), width, height, pixels, Encode(format, color))
      ensures Dirt() == if pixels == 0 then old(Dirt()) else Dirty(0, 0, width, height)
    {
      hide Rows, Agree, Encode, CopyRows, FillRect, ScrolledUp, Marked, CopyArea;
      ghost var was, p := Image(), Encode(format, color);
      if pixels == 0 {
        SameImage(was, ScrolledUp(was, width, height, 0, p), width, height);
        return;
      }
      if pixels >= height {
        Clear(color);
        SameImage(Image(), ScrolledUp(was, width, height, pixels, p), width, height);
        return;
      }
      CopyRect(0, pixels, 0, 0, width, height - pixels);
      CopyRowsIsCopyArea(was, width, height, 0, pixels, 0, 0, width, height - pixels);
      DrawRect(0, height - pixels, width, pixels, color);
      ScrollMarksAll(old(Dirt()), width, height, pixels);
      SameImage(Image(), ScrolledUp(was, width, height, pixels, p), width, height);
    }

    // -------------------------------------------------------------- presenting

    /** Copies the dirty rectangle to the screen and nothing else. */
    method Present()
      requires Valid()
      modifies this, front
      ensures Valid() && Dirt() == Clean && Image() == old(Image())
      ensures forall y, j {:trigger Shown()[y][j]} :: 0 <= y < height && 0 <= j < 4 * width ==>
                Shown()[y][j] == ByteAt(Image()[y], j)
      ensures forall y, x :: 0 <= y < height && 0 <= x < width ==> PixelAt(Shown()[y], x) == Image()[y][x]
      ensures forall i :: 0 <= i < front.Length && !InDirtyBytes(old(Dirt()), pitch, i) ==> front[i] == old(front[i])
    {
      PresentDirty();
      ghost var img, shown := Image(), Shown();
      forall y, x | 0 <= y < height && 0 <= x < width ensures PixelAt(shown[y], x) == img[y][x] {
        LineShowsRow(img[y], shown[y], x);
      }
    }

    /** The line loop of `present`. */
    method PresentDirty()
      requires Valid()
      modifies this, front
      ensures Valid() && Dirt() == Clean && Image() == old(Image())
      ensures forall y, j {:trigger Shown()[y][j]} :: 0 <= y < height && 0 <= j < 4 * width ==>
                Shown()[y][j] == ByteAt(Image()[y], j)
      ensures forall i :: 0 <= i < front.Length && !InDirtyBytes(old(Dirt()), pitch, i) ==> front[i] == old(front[i])
    {
      if !dirty {
        return;
      }
      ghost var d := Dirt();
      dirty := false;
      if minX >= maxX || minY >= maxY {
        return;
      }
      for y := minY to maxY
        modifies front
        invariant Presented(Image(), old(Shown()), Shown(), width, height, d, y)
        invariant forall i :: 0 <= i < front.Length && !InDirtyBytes(d, pitch, i) ==> front[i] == old(front[i])
      {
        PresentRow(y, d);
      }
    }

    /** `copy_nonoverlapping` of `n` bytes of the backbuffer. */
    method MoveBytes(src: nat, dst: nat, n: nat)
      requires src + n <= 4 * back.Length && dst + n <= front.Length
      modifies front
      ensures forall i :: 0 <= i < front.Length && !(dst <= i < dst + n) ==> front[i] == old(front[i])
      ensures front[dst..dst + n] == BytesFrom(back[..], src, n)
    {
      hide ByteAt, BytesFrom;
      ghost var pixels := back[..];
      ghost var bytes := BytesFrom(pixels, src, n);
      forall i | dst <= i < dst + n {
        front[i] := ByteAt(back[..], src + (i - dst));
      }
      forall k | 0 <= k < n ensures front[dst..dst + n][k] == bytes[k] {
        assert front[dst + k] == ByteAt(pixels, src + k);
      }
      assert back[..] == pixels;
    }

    /** Copies the dirty columns of line y. */
    method PresentRow(y: nat, ghost d: Dirt)
      requires Geometry() && d == Dirty(minX, minY, maxX, maxY) && d.Within(width, height) && minY <= y < maxY
      modifies front
      ensures Shown() == old(Shown())[y := RowShown(Image()[y], old(Shown())[y], width, minX, maxX)]
      ensures forall i :: 0 <= i < front.Length && !InDirtyBytes(d, pitch, i) ==> front[i] == old(front[i])
    {
      var rowSize := (maxX - minX) * BYTES_PER_PIXEL;
      var src := y * width * BYTES_PER_PIXEL + minX * BYTES_PER_PIXEL;
      var dst := y * pitch + minX * BYTES_PER_PIXEL;
      hide ByteAt, BytesFrom, Rows, RowShown, Fits;
      SpanFits(back.Length, front.Length, width, height, pitch, y, maxX);
      ghost var before, pixels := front[..], back[..];
      MoveBytes(src, dst, rowSize);
      assert front[..][dst..dst + rowSize] == front[dst..dst + rowSize];
      PresentFlat(before, front[..], pixels, width, height, pitch, y, minX, maxX);
    }

    method PresentFull()
      requires Geometry() && Dirt().Within(width, height)
      modifies this, front
      ensures Valid() && Dirt() == Clean && Image() == old(Image())
      ensures forall y, j {:trigger Shown()[y][j]} :: 0 <= y < height && 0 <= j < 4 * width ==>
                Shown()[y][j] == ByteAt(Image()[y], j)
      ensures forall y, x :: 0 <= y < height && 0 <= x < width ==> PixelAt(Shown()[y], x) == Image()[y][x]
      ensures forall i :: 0 <= i < front.Length && !InDirtyBytes(Dirty(0, 0, width, height), pitch, i) ==>
                            front[i] == old(front[i])
    {
      MarkDirty(0, 0, width, height);
      Present();
    }
  }

  predicate BothBefore(limit: nat, src: nat, dst: nat, i: nat) {
    src + i < limit && dst + i < limit
  }

  /** How much of `n` pixels from `src` and from `dst` lies before `limit`. */
  function Clipped(limit: nat, src: nat, dst: nat, n: nat): (r: nat)
    ensures forall i: nat {:trigger BothBefore(limit, src, dst, i)} ::
              i < r <==> i < n && BothBefore(limit, src, dst, i)
  {
    if src >= limit || dst >= limit then 0 else Min(Min(n, limit - src), limit - dst)
  }

  lemma CopyRowsElsewhere(img: Image, w: nat, h: nat, sx: nat, sy: nat, dx: nat, dy: nat, cols: nat, n: nat)
    requires IsImage(img, w, h) && AreaFits(w, h, sx, sy, dx, dy, cols, n)
    ensures forall j, i {:trigger CopyRows(img, w, h, sx, sy, dx, dy, cols, n)[j][i]} :: 0 <= j < h && 0 <= i < w ==>
              (dx <= i < dx + cols && dy <= j < dy + n)
              || CopyRows(img, w, h, sx, sy, dx, dy, cols, n)[j][i] == img[j][i]
  {
    forall j, i | 0 <= j < h && 0 <= i < w && !(dx <= i < dx + cols && dy <= j < dy + n)
      ensures CopyRows(img, w, h, sx, sy, dx, dy, cols, n)[j][i] == img[j][i]
    {
      CopyRowsAt(img, w, h, sx, sy, dx, dy, cols, n, j, i);
    }
  }

  /** Byte `i` of the visible memory belongs to a pixel of the dirty rectangle. */
  ghost predicate InDirtyBytes(d: Dirt, pitch: nat, i: int) {
    d.Dirty? && exists y: nat :: d.minY <= y < d.maxY && y * pitch + 4 * d.minX <= i < y * pitch + 4 * d.maxX
  }

  /** A visible line with the bytes of columns [lo, hi) taken from the backbuffer's row. */
  ghost function RowShown(row: seq<Pixel>, shown: seq<Byte>, w: nat, lo: nat, hi: nat): (r: seq<Byte>)
    requires |row| == w && |shown| == 4 * w
    ensures |r| == 4 * w
    ensures forall j {:trigger r[j]} :: 0 <= j < 4 * w ==>
              r[j] == if 4 * lo <= j < 4 * hi then ByteAt(row, j) else shown[j]
  {
    seq(4 * w, j requires 0 <= j < 4 * w => if 4 * lo <= j < 4 * hi then ByteAt(row, j) else shown[j])
  }

  /** `n` bytes of the backbuffer from byte `from` on. */
  function BytesFrom(back: seq<Pixel>, from: nat, n: nat): (r: seq<Byte>)
    requires from + n <= 4 * |back|
    ensures |r| == n && forall k :: 0 <= k < n ==> r[k] == ByteAt(back, from + k)
  {
    seq(n, k requires 0 <= k < n => ByteAt(back, from + k))
  }

  /** The bytes of a row are bytes of the buffer from four times the row's start on. */
  lemma ByteOfRow(back: seq<Pixel>, at: nat, w: nat, b: nat)
    requires at + w <= |back| && b < 4 * w
    ensures ByteAt(back, 4 * at + b) == ByteAt(back[at..at + w], b)
  {
    hide ByteOf;
    assert (4 * at + b) / 4 == at + b / 4 && (4 * at + b) % 4 == b % 4;
  }

  lemma BytesOfRow(back: seq<Pixel>, at: nat, w: nat, lo: nat, n: nat)
    requires at + w <= |back| && 4 * lo + n <= 4 * w
    ensures BytesFrom(back, at * 4 + lo * 4, n) == BytesFrom(back[at..at + w], 4 * lo, n)
  {
    hide ByteAt, BytesFrom;
    var all, row := BytesFrom(back, at * 4 + lo * 4, n), BytesFrom(back[at..at + w], 4 * lo, n);
    forall k | 0 <= k < n ensures all[k] == row[k] {
      ByteOfRow(back, at, w, 4 * lo + k);
    }
  }

  lemma SpanShown(row: seq<Pixel>, was: seq<Byte>, now: seq<Byte>, w: nat, lo: nat, hi: nat)
    requires |row| == w && |was| == 4 * w && lo <= hi <= w
    requires now == was[..4 * lo] + BytesFrom(row, 4 * lo, 4 * hi - 4 * lo) + was[4 * hi..]
    ensures now == RowShown(row, was, w, lo, hi)
  {
    hide ByteAt, BytesFrom, RowShown;
    var goal := RowShown(row, was, w, lo, hi);
    forall j | 0 <= j < 4 * w ensures now[j] == goal[j] {
    }
  }

  lemma PresentFlat(before: seq<Byte>, after: seq<Byte>, back: seq<Pixel>, w: nat, h: nat, pitch: nat, y: nat,
                    lo: nat, hi: nat)
    requires Fits(|before|, 4 * w, h, pitch) && |after| == |before| && Fits(|back|, w, h, w)
    requires y < h && lo <= hi <= w
    requires forall i :: 0 <= i < |before| && !(y * pitch + 4 * lo <= i < y * pitch + 4 * hi) ==> after[i] == before[i]
    requires y * w * 4 + lo * 4 + (4 * hi - 4 * lo) <= 4 * |back|
    requires after[y * pitch + 4 * lo..y * pitch + 4 * hi] == BytesFrom(back, y * w * 4 + lo * 4, 4 * hi - 4 * lo)
    ensures var was := Rows(before, 4 * w, h, pitch);
            Rows(after, 4 * w, h, pitch) == was[y := RowShown(Rows(back, w, h, w)[y], was[y], w, lo, hi)]
  {
    hide ByteAt, BytesFrom, RowShown, Rows;
    RowsUpdate(before, after, 4 * w, h, pitch, y, 4 * lo, 4 * hi);
    var was, now, row := Rows(before, 4 * w, h, pitch)[y], Rows(after, 4 * w, h, pitch)[y], Rows(back, w, h, w)[y];
    RowSlice(back, w, h, w, y, 0, w);
    assert row == row[0..w] == back[y * w..y * w + w];
    BytesOfRow(back, y * w, w, lo, 4 * hi - 4 * lo);
    SpanShown(row, was, now, w, lo, hi);
  }

  lemma RowsFit(length: nat, w: nat, h: nat, y: nat, z: nat)
    requires Fits(length, w, h, w) && y < h && z < h
    ensures y * w + w <= length && z * w + w <= length
  {
  }

  /** The bytes that `present` moves lie inside the backbuffer and inside the visible memory. */
  lemma SpanFits(backLength: nat, frontLength: nat, w: nat, h: nat, pitch: nat, y: nat, hi: nat)
    requires Fits(backLength, w, h, w) && Fits(frontLength, 4 * w, h, pitch) && y < h && hi <= w
    ensures y * w * 4 + hi * 4 <= 4 * backLength && y * pitch + 4 * hi <= frontLength
  {
  }

  /** The lines of the dirty rectangle above `upTo` have been copied, all else is as before. */
  ghost predicate Presented(img: Image, before: seq<seq<Byte>>, shown: seq<seq<Byte>>, w: nat, h: nat,
                            d: Dirt, upTo: nat)
    requires IsImage(img, w, h) && d.Dirty?
    requires |before| == h && forall y :: 0 <= y < h ==> |before[y]| == 4 * w
    requires |shown| == h && forall y :: 0 <= y < h ==> |shown[y]| == 4 * w
  {
    forall y, j {:trigger shown[y][j]} :: 0 <= y < h && 0 <= j < 4 * w ==>
      shown[y][j] == if d.minY <= y < upTo && 4 * d.minX <= j < 4 * d.maxX
                     then ByteAt(img[y], j) else before[y][j]
  }

  /** `fb::init`: refuses what it cannot show, then clears the screen to black and presents it. */
  method Init(width: nat, height: nat, pitch: nat, bpp: nat, format: Format, front: array<Byte>)
    returns (fb: Framebuffer?)
    requires 4 * width <= pitch && (height > 0 ==> (height - 1) * pitch + 4 * width <= front.Length)
    modifies front
    ensures fb == null <==> bpp != 32 || width == 0 || height == 0 || width > MAX_WIDTH || height > MAX_HEIGHT
    ensures fb != null ==> fresh(fb) && fresh(fb.back) && fb.Valid() && fb.Dirt() == Clean
    ensures fb != null ==> fb.width == width && fb.height == height && fb.format == format && fb.front == front
    ensures fb != null ==>
              forall y, x :: 0 <= y < height && 0 <= x < width ==> fb.Image()[y][x] == Encode(format, BLACK)
  {
    if bpp != 32 || width == 0 || height == 0 || width > MAX_WIDTH || height > MAX_HEIGHT {
      return null;
    }
    BufferFits(width, height);
    BufferFits(width, height - 1);
    LastRowFits(MAX_PIXELS, width, height, width);
    LastRowFits(front.Length, 4 * width, height, pitch);
    fb := new Framebuffer(width, height, pitch, format, front);
    fb.Clear(BLACK);
    fb.Present();
  }

  lemma BufferFits(w: nat, h: nat)
    requires w <= MAX_WIDTH && h <= MAX_HEIGHT
    ensures w * h <= MAX_PIXELS
  {
    assert (MAX_WIDTH - w) * h >= 0;
    assert (MAX_WIDTH - w) * h == MAX_WIDTH * h - w * h;
  }
}
