/** Images as rows of pixels, and what the drawing operations compute, pixel by pixel. */
module Images {
  import opened Wrappers

  type Pixel = bv32
  type Image = seq<seq<Pixel>>

  ghost predicate IsImage(img: Image, w: nat, h: nat) {
    |img| == h && forall y :: 0 <= y < h ==> |img[y]| == w
  }

  /** Images of one size are equal when all their pixels are. */
  lemma SameImage(a: Image, b: Image, w: nat, h: nat)
    requires IsImage(a, w, h) && IsImage(b, w, h)
    requires forall y, x :: 0 <= y < h && 0 <= x < w ==> a[y][x] == b[y][x]
    ensures a == b
  {
    forall y | 0 <= y < h ensures a[y] == b[y] {
    }
  }

  /** The flat index of a pixel: rows of `w` one after the other. */
  lemma RowsApart(y: nat, z: nat, w: nat)
    requires y < z
    ensures y * w + w <= z * w
  {
    assert z * w == y * w + w + (z - y - 1) * w;
    assert (z - y - 1) * w >= 0;
  }

  /** The rows of a flat buffer whose rows are `w` long and start `pitch` apart. */
  ghost predicate Fits(length: nat, w: nat, h: nat, pitch: nat) {
    w <= pitch && forall y: nat :: y < h ==> y * pitch + w <= length
  }

  lemma LastRowFits(length: nat, w: nat, h: nat, pitch: nat)
    requires w <= pitch && (h > 0 ==> (h - 1) * pitch + w <= length)
    ensures Fits(length, w, h, pitch)
  {
    forall y: nat | y < h ensures y * pitch + w <= length {
      if y < h - 1 {
        RowsApart(y, h - 1, pitch);
      }
    }
  }

  ghost function Rows<T>(buffer: seq<T>, w: nat, h: nat, pitch: nat): (rows: seq<seq<T>>)
    requires Fits(|buffer|, w, h, pitch)
    ensures |rows| == h && forall y :: 0 <= y < h ==> |rows[y]| == w
  {
    seq(h, y requires 0 <= y < h => buffer[y * pitch..y * pitch + w])
  }

  /** Two buffers that differ only inside one row have the same other rows. */
  lemma OtherRow<T>(before: seq<T>, after: seq<T>, w: nat, h: nat, pitch: nat, y: nat, z: nat)
    requires Fits(|before|, w, h, pitch) && |after| == |before| && y < h && z < h && y != z
    requires forall i :: 0 <= i < |before| && !(y * pitch <= i < y * pitch + w) ==> after[i] == before[i]
    ensures Rows(after, w, h, pitch)[z] == Rows(before, w, h, pitch)[z]
  {
    if z < y {
      RowsApart(z, y, pitch);
    } else {
      RowsApart(y, z, pitch);
    }
  }

  lemma SameRow<T>(before: seq<T>, after: seq<T>, at: nat, w: nat, lo: nat, hi: nat)
    requires |after| == |before| && at + w <= |before| && lo <= hi <= w
    requires forall i :: 0 <= i < |before| && !(at + lo <= i < at + hi) ==> after[i] == before[i]
    ensures after[at..at + w] == before[at..at + w][..lo] + after[at + lo..at + hi] + before[at..at + w][hi..]
  {
  }

  /** Writing into part of one row changes that row and no other. */
  lemma RowsUpdate<T>(before: seq<T>, after: seq<T>, w: nat, h: nat, pitch: nat, y: nat, lo: nat, hi: nat)
    requires Fits(|before|, w, h, pitch) && |after| == |before| && y < h && lo <= hi <= w
    requires forall i :: 0 <= i < |before| && !(y * pitch + lo <= i < y * pitch + hi) ==> after[i] == before[i]
    ensures var rows := Rows(before, w, h, pitch);
            Rows(after, w, h, pitch)
            == rows[y := rows[y][..lo] + after[y * pitch + lo..y * pitch + hi] + rows[y][hi..]]
  {
    var was, now := Rows(before, w, h, pitch), Rows(after, w, h, pitch);
    forall z | 0 <= z < h && z != y ensures now[z] == was[z] {
      OtherRow(before, after, w, h, pitch, y, z);
    }
    SameRow(before, after, y * pitch, w, lo, hi);
    assert now[y] == was[y][..lo] + after[y * pitch + lo..y * pitch + hi] + was[y][hi..];
  }

  lemma RowSlice<T>(buffer: seq<T>, w: nat, h: nat, pitch: nat, y: nat, lo: nat, hi: nat)
    requires Fits(|buffer|, w, h, pitch) && y < h && lo <= hi <= w
    ensures Rows(buffer, w, h, pitch)[y][lo..hi] == buffer[y * pitch + lo..y * pitch + hi]
  {
  }

  // ---------------------------------------------------------------- rectangles

  /** `img` with every pixel of the rectangle [x, ex) by [y, ey) set to `p`. */
  function FillRect(img: Image, w: nat, h: nat, x: int, y: int, ex: int, ey: int, p: Pixel): (r: Image)
    requires IsImage(img, w, h)
    ensures IsImage(r, w, h)
    ensures forall j, i {:trigger r[j][i]} :: 0 <= j < h && 0 <= i < w ==>
                             r[j][i] == if y <= j < ey && x <= i < ex then p else img[j][i]
  {
    seq(h, j requires 0 <= j < h =>
      seq(w, i requires 0 <= i < w =>
        if y <= j < ey && x <= i < ex then p else img[j][i]))
  }

  /** A rectangle of `cols` by `rows` pixels that fits in the image at both places. */
  predicate AreaFits(w: nat, h: nat, sx: nat, sy: nat, dx: nat, dy: nat, cols: nat, rows: nat) {
    sx + cols <= w && dx + cols <= w && sy + rows <= h && dy + rows <= h
  }

  /** Pixel (i, j) once the rectangle at (dx, dy) shows what was at (sx, sy). */
  function CopiedPixel(img: Image, w: nat, h: nat, sx: nat, sy: nat, dx: nat, dy: nat, cols: nat, rows: nat,
                       j: nat, i: nat): Pixel
    requires IsImage(img, w, h) && AreaFits(w, h, sx, sy, dx, dy, cols, rows) && j < h && i < w
  {
    if dy <= j < dy + rows && dx <= i < dx + cols then img[sy + (j - dy)][sx + (i - dx)] else img[j][i]
  }

  /** `img` with the rectangle at (dx, dy) replaced, all at once, by the one at (sx, sy). */
  function CopyArea(img: Image, w: nat, h: nat, sx: nat, sy: nat, dx: nat, dy: nat, cols: nat, rows: nat): (r: Image)
    requires IsImage(img, w, h) && AreaFits(w, h, sx, sy, dx, dy, cols, rows)
    ensures IsImage(r, w, h)
    ensures forall j, i {:trigger r[j][i]} :: 0 <= j < h && 0 <= i < w ==>
              r[j][i] == CopiedPixel(img, w, h, sx, sy, dx, dy, cols, rows, j, i)
  {
    seq(h, j requires 0 <= j < h =>
      seq(w, i requires 0 <= i < w =>
        CopiedPixel(img, w, h, sx, sy, dx, dy, cols, rows, j, i)))
  }

  /** Everything moves up by `n` rows; rows that come from below the image are `p`. */
  function ScrolledUp(img: Image, w: nat, h: nat, n: nat, p: Pixel): (r: Image)
    requires IsImage(img, w, h)
    ensures IsImage(r, w, h)
    ensures forall j, i {:trigger r[j][i]} :: 0 <= j < h && 0 <= i < w ==>
                             r[j][i] == if j + n < h then img[j + n][i] else p
  {
    seq(h, j requires 0 <= j < h =>
      seq(w, i requires 0 <= i < w =>
        if j + n < h then img[j + n][i] else p))
  }

  /** Scrolling by a and then by b is scrolling by a + b, whatever a and b are. */
  lemma ScrollsAdd(img: Image, w: nat, h: nat, a: nat, b: nat, p: Pixel)
    requires IsImage(img, w, h)
    ensures ScrolledUp(ScrolledUp(img, w, h, a, p), w, h, b, p) == ScrolledUp(img, w, h, a + b, p)
  {
    hide ScrolledUp;
    SameImage(ScrolledUp(ScrolledUp(img, w, h, a, p), w, h, b, p), ScrolledUp(img, w, h, a + b, p), w, h);
  }

  /** Filling `ex - x` pixels of one row of a flat buffer fills a rectangle of height 1. */
  lemma FillFlat(before: seq<Pixel>, after: seq<Pixel>, w: nat, h: nat, y: nat, x: nat, ex: nat, p: Pixel)
    requires Fits(|before|, w, h, w) && |after| == |before| && y < h && x <= ex <= w
    requires forall i :: 0 <= i < |before| ==>
               after[i] == if y * w + x <= i < y * w + ex then p else before[i]
    ensures Rows(after, w, h, w) == FillRect(Rows(before, w, h, w), w, h, x, y, ex, y + 1, p)
  {
    hide FillRect, Rows;
    RowsUpdate(before, after, w, h, w, y, x, ex);
    SameImage(Rows(after, w, h, w), FillRect(Rows(before, w, h, w), w, h, x, y, ex, y + 1, p), w, h);
  }

  /** Moving pixels between two rows of a flat buffer copies part of one row of the image over another. */
  lemma MoveFlat(before: seq<Pixel>, after: seq<Pixel>, w: nat, h: nat, sx: nat, from: nat, dx: nat, to: nat, cols: nat)
    requires Fits(|before|, w, h, w) && |after| == |before|
    requires from < h && to < h && sx + cols <= w && dx + cols <= w
    requires forall i :: 0 <= i < |before| && !(to * w + dx <= i < to * w + (dx + cols)) ==> after[i] == before[i]
    requires after[to * w + dx..to * w + (dx + cols)] == before[from * w + sx..from * w + (sx + cols)]
    ensures Rows(after, w, h, w) == CopyRow(Rows(before, w, h, w), w, h, sx, from, dx, to, cols)
  {
    hide Rows;
    RowsUpdate(before, after, w, h, w, to, dx, dx + cols);
    RowSlice(before, w, h, w, from, sx, sx + cols);
  }

  // ---------------------------------------------------------------- row by row copying

  /** Row `from` of an image copied over row `to`, as far as the columns reach: one overlap-safe copy. */
  function CopyRow(img: Image, w: nat, h: nat, sx: nat, from: nat, dx: nat, to: nat, cols: nat): (r: Image)
    requires IsImage(img, w, h) && sx + cols <= w && dx + cols <= w && from < h && to < h
    ensures IsImage(r, w, h)
    ensures forall j, i {:trigger r[j][i]} :: 0 <= j < h && 0 <= i < w ==>
                             r[j][i] == if j == to && dx <= i < dx + cols then img[from][sx + (i - dx)] else img[j][i]
  {
    img[to := img[to][..dx] + img[from][sx..sx + cols] + img[to][dx + cols..]]
  }

  /** What the row loop of `copy_rect` leaves after `n` rows, first row first. */
  function CopyRows(img: Image, w: nat, h: nat, sx: nat, sy: nat, dx: nat, dy: nat, cols: nat, n: nat): (r: Image)
    requires IsImage(img, w, h) && AreaFits(w, h, sx, sy, dx, dy, cols, n)
    ensures IsImage(r, w, h)
  {
    if n == 0 then img
    else CopyRow(CopyRows(img, w, h, sx, sy, dx, dy, cols, n - 1), w, h, sx, sy + n - 1, dx, dy + n - 1, cols)
  }

  /** Each destination row is written once, from what its source row held at that moment. */
  lemma {:induction false} CopyRowsAt(img: Image, w: nat, h: nat, sx: nat, sy: nat, dx: nat, dy: nat, cols: nat, n: nat,
                                      j: nat, i: nat)
    requires IsImage(img, w, h) && AreaFits(w, h, sx, sy, dx, dy, cols, n) && j < h && i < w
    ensures CopyRows(img, w, h, sx, sy, dx, dy, cols, n)[j][i] ==
            if dy <= j < dy + n && dx <= i < dx + cols
            then CopyRows(img, w, h, sx, sy, dx, dy, cols, j - dy)[sy + (j - dy)][sx + (i - dx)]
            else img[j][i]
  {
    hide CopyRow;
    if n > 0 {
      CopyRowsAt(img, w, h, sx, sy, dx, dy, cols, n - 1, j, i);
    }
  }

  /** No row reads what an earlier row of the same copy wrote. */
  predicate RowOrderSafe(sx: nat, sy: nat, dx: nat, dy: nat, cols: nat, rows: nat) {
    dy <= sy || sy + rows <= dy || sx + cols <= dx || dx + cols <= sx
  }

  /** Where the row order is safe the row loop is a simultaneous copy. */
  lemma CopyRowsIsCopyArea(img: Image, w: nat, h: nat, sx: nat, sy: nat, dx: nat, dy: nat, cols: nat, rows: nat)
    requires IsImage(img, w, h) && AreaFits(w, h, sx, sy, dx, dy, cols, rows)
    requires RowOrderSafe(sx, sy, dx, dy, cols, rows)
    ensures CopyRows(img, w, h, sx, sy, dx, dy, cols, rows) == CopyArea(img, w, h, sx, sy, dx, dy, cols, rows)
  {
    hide CopyRows, CopyArea;
    var a, b := CopyRows(img, w, h, sx, sy, dx, dy, cols, rows), CopyArea(img, w, h, sx, sy, dx, dy, cols, rows);
    forall j, i | 0 <= j < h && 0 <= i < w ensures a[j][i] == b[j][i] {
      CopyRowsAt(img, w, h, sx, sy, dx, dy, cols, rows, j, i);
      if dy <= j < dy + rows && dx <= i < dx + cols {
        CopyRowsAt(img, w, h, sx, sy, dx, dy, cols, j - dy, sy + (j - dy), sx + (i - dx));
      }
    }
    SameImage(a, b, w, h);
  }

  /** An image that is 0 except for one pixel. */
  function Dot(w: nat, h: nat, x: nat, y: nat): (img: Image)
    ensures IsImage(img, w, h)
    ensures forall j, i {:trigger img[j][i]} :: 0 <= j < h && 0 <= i < w ==>
                               img[j][i] == if i == x && j == y then 1 else 0
  {
    seq(h, j => seq(w, i => if i == x && j == y then 1 else 0))
  }

  /** Where it is not safe, an image exists on which the row loop and the simultaneous copy differ. */
  lemma UnsafeCopyDiffers(w: nat, h: nat, sx: nat, sy: nat, dx: nat, dy: nat, cols: nat, rows: nat)
    returns (img: Image)
    requires AreaFits(w, h, sx, sy, dx, dy, cols, rows) && !RowOrderSafe(sx, sy, dx, dy, cols, rows)
    ensures IsImage(img, w, h)
    ensures CopyRows(img, w, h, sx, sy, dx, dy, cols, rows) != CopyArea(img, w, h, sx, sy, dx, dy, cols, rows)
  {
    hide CopyRows, CopyArea, Dot;
    var c, d := Max(sx, dx), dy - sy;
    img := Dot(w, h, c, dy);
    var j, i := dy + d, dx + (c - sx);
    CopyRowsAt(img, w, h, sx, sy, dx, dy, cols, rows, j, i);
    CopyRowsAt(img, w, h, sx, sy, dx, dy, cols, d, dy, c);
    CopyRowsAt(img, w, h, sx, sy, dx, dy, cols, 0, sy, sx + (c - dx));
  }

  /** `copy_rect` moves every image as one simultaneous copy exactly when the row order is safe. */
  lemma CopyRowsExactly(w: nat, h: nat, sx: nat, sy: nat, dx: nat, dy: nat, cols: nat, rows: nat)
    requires AreaFits(w, h, sx, sy, dx, dy, cols, rows)
    ensures RowOrderSafe(sx, sy, dx, dy, cols, rows) <==>
            forall img :: IsImage(img, w, h) ==>
                            CopyRows(img, w, h, sx, sy, dx, dy, cols, rows)
                            == CopyArea(img, w, h, sx, sy, dx, dy, cols, rows)
  {
    hide CopyRows, CopyArea;
    if RowOrderSafe(sx, sy, dx, dy, cols, rows) {
      forall img | IsImage(img, w, h)
        ensures CopyRows(img, w, h, sx, sy, dx, dy, cols, rows) == CopyArea(img, w, h, sx, sy, dx, dy, cols, rows)
      {
        CopyRowsIsCopyArea(img, w, h, sx, sy, dx, dy, cols, rows);
      }
    } else {
      var img := UnsafeCopyDiffers(w, h, sx, sy, dx, dy, cols, rows);
    }
  }
}
