/** Pixels, pixel grids and rectangular regions of a frame.

    A frame is a `rows x cols` grid of 3-channel 8-bit pixels, indexed
    `[row][column]` as numpy indexes `frame[y, x]`. Regions are half-open
    rectangles of rows and columns; `Extract` is numpy's read of
    `frame[top:bottom, left:right]` and `Paste` its slice assignment. */
module Image {

  /** One 8-bit channel value (numpy's `uint8`). */
  newtype byte = x: int | 0 <= x < 256

  /** A pixel of a 3-channel frame, channels in OpenCV's B, G, R order. */
  datatype Pixel = Pixel(b: byte, g: byte, r: byte)

  const Black := Pixel(0, 0, 0)

  /** `g` has exactly `rows` rows of `cols` entries each. */
  predicate IsGrid<T>(g: seq<seq<T>>, rows: nat, cols: nat) {
    |g| == rows && forall i :: 0 <= i < rows ==> |g[i]| == cols
  }

  /** Number of columns of a grid, read off its first row. */
  function Width<T>(g: seq<seq<T>>): nat {
    if |g| == 0 then 0 else |g[0]|
  }

  /** Every row of `g` has the same length. */
  predicate Rectangular<T>(g: seq<seq<T>>) {
    IsGrid(g, |g|, Width(g))
  }

  /** Rows `[top, bottom)` and columns `[left, right)`. */
  datatype Rect = Rect(top: int, left: int, bottom: int, right: int) {

    predicate Contains(i: int, j: int) {
      top <= i < bottom && left <= j < right
    }

    /** The rectangle lies inside a `rows x cols` grid (it may be empty). */
    predicate Within(rows: int, cols: int) {
      0 <= top <= bottom <= rows && 0 <= left <= right <= cols
    }

    function Height(): int { bottom - top }

    function Breadth(): int { right - left }
  }

  /** The pixels of `g` inside `rect`, re-indexed from `(0, 0)`. */
  function Extract<T>(g: seq<seq<T>>, rect: Rect): (r: seq<seq<T>>)
    requires Rectangular(g) && rect.Within(|g|, Width(g))
    ensures IsGrid(r, rect.Height(), rect.Breadth())
    ensures forall i, j :: 0 <= i < rect.Height() && 0 <= j < rect.Breadth() ==>
              r[i][j] == g[rect.top + i][rect.left + j]
  {
    seq(rect.Height(), i requires 0 <= i < rect.Height() =>
      seq(rect.Breadth(), j requires 0 <= j < rect.Breadth() =>
        g[rect.top + i][rect.left + j]))
  }

  /** `g` with the pixels inside `rect` replaced by those of `region`. */
  function Paste<T>(g: seq<seq<T>>, rect: Rect, region: seq<seq<T>>): (r: seq<seq<T>>)
    requires Rectangular(g) && rect.Within(|g|, Width(g))
    requires IsGrid(region, rect.Height(), rect.Breadth())
    ensures IsGrid(r, |g|, Width(g)) && Width(r) == Width(g)
    ensures forall i, j :: 0 <= i < |g| && 0 <= j < Width(g) ==>
              r[i][j] == if rect.Contains(i, j) then region[i - rect.top][j - rect.left] else g[i][j]
  {
    seq(|g|, i requires 0 <= i < |g| =>
      seq(Width(g), j requires 0 <= j < Width(g) =>
        if rect.Contains(i, j) then region[i - rect.top][j - rect.left] else g[i][j]))
  }

  /** Two grids of the same shape that agree at every position are equal. */
  lemma GridEq<T>(a: seq<seq<T>>, b: seq<seq<T>>, rows: nat, cols: nat)
    requires IsGrid(a, rows, cols) && IsGrid(b, rows, cols)
    requires forall i, j :: 0 <= i < rows && 0 <= j < cols ==> a[i][j] == b[i][j]
    ensures a == b
  {
    forall i | 0 <= i < rows
      ensures a[i] == b[i]
    {
      assert forall j :: 0 <= j < cols ==> a[i][j] == b[i][j];
    }
  }

  /** Reading back a region just written gives exactly what was written. */
  lemma ExtractPaste<T>(g: seq<seq<T>>, rect: Rect, region: seq<seq<T>>)
    requires Rectangular(g) && rect.Within(|g|, Width(g))
    requires IsGrid(region, rect.Height(), rect.Breadth())
    ensures Extract(Paste(g, rect, region), rect) == region
  {
    var p := Paste(g, rect, region);
    GridEq(Extract(p, rect), region, rect.Height(), rect.Breadth());
  }

  /** Writing back a region exactly as it was read leaves the grid unchanged. */
  lemma PasteExtract<T>(g: seq<seq<T>>, rect: Rect)
    requires Rectangular(g) && rect.Within(|g|, Width(g))
    ensures Paste(g, rect, Extract(g, rect)) == g
  {
    GridEq(Paste(g, rect, Extract(g, rect)), g, |g|, Width(g));
  }
}
