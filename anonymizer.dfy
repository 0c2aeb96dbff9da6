/** The per-frame detection loop of `update_frame`: each detected face box
    is clamped, cut to the frame by numpy's slicing, blurred through
    `apply_blur` and written back into the frame in place, one detection
    after the other. */
module Anonymizer {
  import opened Image
  import opened Kernel
  import opened MaskBuilder
  import opened Compositor

  /** A face box in pixels: origin `(x, y)` (column, row) and extent `w x h`. */
  datatype Box = Box(x: int, y: int, w: int, h: int)

  function Max(a: int, b: int): int { if a < b then b else a }

  function Min(a: int, b: int): int { if a < b then a else b }

  /** The box after `x = max(0, x)`, `y = max(0, y)`, `w = max(1, w)`,
      `h = max(1, h)`: the origin is never negative and the extent never
      empty; coordinates already in range pass through, the others are
      raised to their bound. There is no upper clamp. */
  function Clamp(b: Box): (c: Box)
    ensures c.x >= 0 && c.y >= 0 && c.w >= 1 && c.h >= 1
    ensures b.x >= 0 ==> c.x == b.x
    ensures b.y >= 0 ==> c.y == b.y
    ensures b.w >= 1 ==> c.w == b.w
    ensures b.h >= 1 ==> c.h == b.h
    ensures b.x < 0 ==> c.x == 0
    ensures b.y < 0 ==> c.y == 0
    ensures b.w < 1 ==> c.w == 1
    ensures b.h < 1 ==> c.h == 1
  {
    Box(Max(0, b.x), Max(0, b.y), Max(1, b.w), Max(1, b.h))
  }

  /** The index range `[lo, hi)` that Python's `s[start:stop]` selects from a
      sequence of length `n`, for non-negative `start` and `stop`. */
  function SliceRange(start: nat, stop: nat, n: nat): (r: (nat, nat))
    ensures r.0 <= r.1 <= n
    ensures start < n && start <= stop ==> r.0 == start && r.1 == Min(stop, n)
  {
    var lo := Min(start, n);
    var hi := Min(stop, n);
    if hi < lo then (lo, lo) else (lo, hi)
  }

  /** A slice selects exactly the indices of `[start, stop)` that exist. */
  lemma SliceRangeSelects(start: nat, stop: nat, n: nat, i: int)
    ensures SliceRange(start, stop, n).0 <= i < SliceRange(start, stop, n).1 <==> start <= i < stop && i < n
  {
  }

  /** The region `frame[y:y+h, x:x+w]` of a clamped box in a `rows x cols`
      frame: the box cut to the frame, `min(w, cols - x)` columns by
      `min(h, rows - y)` rows when its origin lies in the frame. */
  function Truncate(c: Box, rows: nat, cols: nat): (r: Rect)
    requires c.x >= 0 && c.y >= 0 && c.w >= 1 && c.h >= 1
    ensures r.Within(rows, cols)
    ensures c.y < rows && c.x < cols ==>
              r.top == c.y && r.left == c.x &&
              r.Height() == Min(c.h, rows - c.y) && r.Breadth() == Min(c.w, cols - c.x) &&
              r.Height() >= 1 && r.Breadth() >= 1
  {
    var (top, bottom) := SliceRange(c.y, c.y + c.h, rows);
    var (left, right) := SliceRange(c.x, c.x + c.w, cols);
    Rect(top, left, bottom, right)
  }

  /** The truncated region holds exactly the pixels of the box that lie in
      the frame: nothing outside the frame is ever addressed. */
  lemma TruncateIsBoxWithinFrame(c: Box, rows: nat, cols: nat, i: int, j: int)
    requires c.x >= 0 && c.y >= 0 && c.w >= 1 && c.h >= 1
    ensures Truncate(c, rows, cols).Contains(i, j) <==>
              c.y <= i < c.y + c.h && c.x <= j < c.x + c.w && 0 <= i < rows && 0 <= j < cols
  {
    SliceRangeSelects(c.y, c.y + c.h, rows, i);
    SliceRangeSelects(c.x, c.x + c.w, cols, j);
  }

  /** The clamped box starts inside a `rows x cols` frame, so the region
      sliced from it is not empty (an empty region would make OpenCV's
      Gaussian blur fail). */
  predicate Fits(d: Box, rows: int, cols: int)
  {
    Clamp(d).y < rows && Clamp(d).x < cols
  }

  /** In terms of the box as detected: it fits exactly when the frame is not
      empty and the origin is not beyond its last row or column (a negative
      origin fits, since it is clamped to 0). */
  lemma FitsIffOriginBeforeFrameEnd(d: Box, rows: int, cols: int)
    ensures Fits(d, rows, cols) <==> 0 < rows && d.y < rows && 0 < cols && d.x < cols
  {
  }

  /** The frame region touched by detection `d`; it always lies inside the
      frame. */
  function Region(d: Box, rows: nat, cols: nat): (r: Rect)
    ensures r.Within(rows, cols)
  {
    Truncate(Clamp(d), rows, cols)
  }

  /** The region of a detection that fits starts at its clamped origin, is
      never empty and ends where the clamped box or the frame ends; the
      region of one that does not fit is empty. */
  lemma RegionOfDetection(d: Box, rows: nat, cols: nat)
    ensures Fits(d, rows, cols) ==>
              Region(d, rows, cols).top == Max(0, d.y) && Region(d, rows, cols).left == Max(0, d.x) &&
              Region(d, rows, cols).bottom == Min(Max(0, d.y) + Max(1, d.h), rows) &&
              Region(d, rows, cols).right == Min(Max(0, d.x) + Max(1, d.w), cols)
    ensures !Fits(d, rows, cols) ==> Region(d, rows, cols).Height() == 0 || Region(d, rows, cols).Breadth() == 0
  {
  }

  /** One iteration of the detection loop, on the frame as a grid: read the
      region of `d`, blur and composite it, write it back. */
  function Step(g: seq<seq<Pixel>>, d: Box, mode: int, kernelSize: int, blur: Blurrer): (r: seq<seq<Pixel>>)
    requires Rectangular(g) && Fits(d, |g|, Width(g))
    ensures IsGrid(r, |g|, Width(g)) && Width(r) == Width(g)
  {
    var rect := Region(d, |g|, Width(g));
    Paste(g, rect, ApplyBlur(Extract(g, rect), mode, kernelSize, blur))
  }

  /** After one detection its region holds `apply_blur` of what the region
      held before, and every pixel outside the region is unchanged. */
  lemma StepEffect(g: seq<seq<Pixel>>, d: Box, mode: int, kernelSize: int, blur: Blurrer)
    requires Rectangular(g) && Fits(d, |g|, Width(g))
    ensures Extract(Step(g, d, mode, kernelSize, blur), Region(d, |g|, Width(g))) ==
              ApplyBlur(Extract(g, Region(d, |g|, Width(g))), mode, kernelSize, blur)
    ensures forall i, j :: 0 <= i < |g| && 0 <= j < Width(g) && !Region(d, |g|, Width(g)).Contains(i, j) ==>
              Step(g, d, mode, kernelSize, blur)[i][j] == g[i][j]
  {
    var rect := Region(d, |g|, Width(g));
    assert rect == Truncate(Clamp(d), |g|, Width(g));
    var blurred := ApplyBlur(Extract(g, rect), mode, kernelSize, blur);
    assert Step(g, d, mode, kernelSize, blur) == Paste(g, rect, blurred);
    ExtractPaste(g, rect, blurred);
  }

  /** All detections `ds` fit a `rows x cols` frame. */
  predicate AllFit(ds: seq<Box>, rows: int, cols: int) {
    forall n :: 0 <= n < |ds| ==> Fits(ds[n], rows, cols)
  }

  /** The detection loop as a fold: the detections are applied in list
      order, each to the frame as the earlier ones left it. */
  function ApplyAll(g: seq<seq<Pixel>>, ds: seq<Box>, mode: int, kernelSize: int, blur: Blurrer): (r: seq<seq<Pixel>>)
    requires Rectangular(g) && AllFit(ds, |g|, Width(g))
    ensures IsGrid(r, |g|, Width(g)) && Width(r) == Width(g)
    decreases |ds|
  {
    if ds == [] then g
    else Step(ApplyAll(g, ds[..|ds| - 1], mode, kernelSize, blur), ds[|ds| - 1], mode, kernelSize, blur)
  }

  /** Without detections the frame is left exactly as it was. */
  lemma NoDetectionsNoChange(g: seq<seq<Pixel>>, mode: int, kernelSize: int, blur: Blurrer)
    requires Rectangular(g)
    ensures ApplyAll(g, [], mode, kernelSize, blur) == g
  {
  }

  /** Position `(i, j)` lies outside the region of every detection. */
  predicate OutsideAll(ds: seq<Box>, rows: nat, cols: nat, i: int, j: int) {
    forall n :: 0 <= n < |ds| ==> !Region(ds[n], rows, cols).Contains(i, j)
  }

  /** A pixel outside the region of every detection keeps its value. */
  lemma {:induction false} UntouchedPixelsUnchanged(g: seq<seq<Pixel>>, ds: seq<Box>, mode: int, kernelSize: int,
                                                    blur: Blurrer, i: int, j: int)
    requires Rectangular(g) && AllFit(ds, |g|, Width(g))
    requires 0 <= i < |g| && 0 <= j < Width(g)
    requires OutsideAll(ds, |g|, Width(g), i, j)
    ensures ApplyAll(g, ds, mode, kernelSize, blur)[i][j] == g[i][j]
    decreases |ds|
  {
    if ds != [] {
      var prefix := ds[..|ds| - 1];
      UntouchedPixelsUnchanged(g, prefix, mode, kernelSize, blur, i, j);
      StepEffect(ApplyAll(g, prefix, mode, kernelSize, blur), ds[|ds| - 1], mode, kernelSize, blur);
    }
  }

  lemma AllFitAppend(ds1: seq<Box>, ds2: seq<Box>, rows: int, cols: int)
    requires AllFit(ds1, rows, cols) && AllFit(ds2, rows, cols)
    ensures AllFit(ds1 + ds2, rows, cols)
  {
    var both := ds1 + ds2;
    forall n | 0 <= n < |both| ensures Fits(both[n], rows, cols) {
      if n >= |ds1| { assert both[n] == ds2[n - |ds1|]; }
    }
  }

  /** The fold over the first `n + 1` detections is one more step on the
      fold over the first `n`. */
  lemma ApplyAllPrefixStep(g: seq<seq<Pixel>>, ds: seq<Box>, n: nat, mode: int, kernelSize: int, blur: Blurrer)
    requires Rectangular(g) && AllFit(ds, |g|, Width(g)) && n < |ds|
    ensures AllFit(ds[..n], |g|, Width(g)) && AllFit(ds[..n + 1], |g|, Width(g))
    ensures ApplyAll(g, ds[..n + 1], mode, kernelSize, blur) ==
              Step(ApplyAll(g, ds[..n], mode, kernelSize, blur), ds[n], mode, kernelSize, blur)
  {
    AllFitPrefix(ds, n, |g|, Width(g));
    AllFitPrefix(ds, n + 1, |g|, Width(g));
    PrefixSlices(ds, n);
  }

  /** The prefix of length `n + 1` is the prefix of length `n` followed by
      element `n`. */
  lemma PrefixSlices<T>(s: seq<T>, n: nat)
    requires n < |s|
    ensures |s[..n + 1]| - 1 == n
    ensures s[..n + 1][..n] == s[..n] && s[..n + 1][n] == s[n]
  {
  }

  /** Appending one detection applies it to the frame the others left. */
  lemma ApplyAllSnoc(g: seq<seq<Pixel>>, ds: seq<Box>, d: Box, mode: int, kernelSize: int, blur: Blurrer)
    requires Rectangular(g) && AllFit(ds, |g|, Width(g)) && Fits(d, |g|, Width(g))
    ensures AllFit(ds + [d], |g|, Width(g))
    ensures ApplyAll(g, ds + [d], mode, kernelSize, blur) ==
              Step(ApplyAll(g, ds, mode, kernelSize, blur), d, mode, kernelSize, blur)
  {
    AllFitAppend(ds, [d], |g|, Width(g));
    assert (ds + [d])[..|ds|] == ds;
  }

  /** Applying two lists of detections one after the other is applying
      their concatenation. */
  lemma {:induction false} ApplyAllAppend(g: seq<seq<Pixel>>, ds1: seq<Box>, ds2: seq<Box>, mode: int,
                                          kernelSize: int, blur: Blurrer)
    requires Rectangular(g) && AllFit(ds1, |g|, Width(g)) && AllFit(ds2, |g|, Width(g))
    ensures AllFit(ds1 + ds2, |g|, Width(g))
    ensures ApplyAll(g, ds1 + ds2, mode, kernelSize, blur) ==
              ApplyAll(ApplyAll(g, ds1, mode, kernelSize, blur), ds2, mode, kernelSize, blur)
    decreases |ds2|
  {
    AllFitAppend(ds1, ds2, |g|, Width(g));
    if ds2 == [] {
      assert ds1 + ds2 == ds1;
    } else {
      var mid := ApplyAll(g, ds1, mode, kernelSize, blur);
      var init, last := ds2[..|ds2| - 1], ds2[|ds2| - 1];
      assert ds2 == init + [last];
      assert ds1 + ds2 == (ds1 + init) + [last];
      AllFitPrefix(ds2, |ds2| - 1, |g|, Width(g));
      AllFitAppend(ds1, init, |g|, Width(g));
      ApplyAllAppend(g, ds1, init, mode, kernelSize, blur);
      ApplyAllSnoc(g, ds1 + init, last, mode, kernelSize, blur);
      ApplyAllSnoc(mid, init, last, mode, kernelSize, blur);
    }
  }

  /** Every prefix of detections that fit also fits. */
  lemma AllFitPrefix(ds: seq<Box>, n: nat, rows: int, cols: int)
    requires AllFit(ds, rows, cols) && n <= |ds|
    ensures AllFit(ds[..n], rows, cols)
  {
    forall k | 0 <= k < n ensures Fits(ds[..n][k], rows, cols) {
      assert ds[..n][k] == ds[k];
    }
  }

  /** The first detection is applied to the incoming frame and the others to
      its result: the loop is a left fold of `apply_blur` over the detections. */
  lemma ApplyAllFirst(g: seq<seq<Pixel>>, d: Box, ds: seq<Box>, mode: int, kernelSize: int, blur: Blurrer)
    requires Rectangular(g) && Fits(d, |g|, Width(g)) && AllFit(ds, |g|, Width(g))
    ensures AllFit([d] + ds, |g|, Width(g))
    ensures ApplyAll(g, [d] + ds, mode, kernelSize, blur) ==
              ApplyAll(Step(g, d, mode, kernelSize, blur), ds, mode, kernelSize, blur)
  {
    assert [d][..0] == [];
    ApplyAllAppend(g, [d], ds, mode, kernelSize, blur);
  }

  /** A box reaching past the right edge of a 640-wide frame at x = 600 is
      cut to the 40 columns that exist. */
  lemma WideBoxCutAtRightEdge()
    ensures Region(Box(600, 120, 100, 144), 480, 640) == Rect(120, 600, 264, 640)
  {
  }

  /** A box starting left of the frame is moved, not cut: raising `x` to 0
      leaves `w` as it was, so the region keeps its full width. */
  lemma NegativeOriginShiftsBox()
    ensures Region(Box(-20, 10, 100, 50), 480, 640) == Rect(10, 0, 60, 100)
  {
  }

  /** The frame buffer viewed as a grid of rows. */
  function Grid(frame: array2<Pixel>): (g: seq<seq<Pixel>>)
    reads frame
    ensures IsGrid(g, frame.Length0, frame.Length1)
    ensures forall i, j :: 0 <= i < frame.Length0 && 0 <= j < frame.Length1 ==> g[i][j] == frame[i, j]
  {
    seq(frame.Length0, i requires 0 <= i < frame.Length0 reads frame =>
      seq(frame.Length1, j requires 0 <= j < frame.Length1 reads frame => frame[i, j]))
  }

  /** `frame[top:bottom, left:right]` read straight from the frame: the
      region of the frame's grid under `rect`. */
  function ReadRegion(frame: array2<Pixel>, rect: Rect): (r: seq<seq<Pixel>>)
    reads frame
    requires rect.Within(frame.Length0, frame.Length1)
    ensures IsGrid(r, rect.Height(), rect.Breadth())
    ensures frame.Length0 >= 1 ==> r == Extract(Grid(frame), rect)
  {
    var r := seq(rect.Height(), i requires 0 <= i < rect.Height() reads frame =>
      seq(rect.Breadth(), j requires 0 <= j < rect.Breadth() reads frame =>
        frame[rect.top + i, rect.left + j]));
    if frame.Length0 >= 1 then
      GridEq(r, Extract(Grid(frame), rect), rect.Height(), rect.Breadth());
      r
    else
      r
  }

  /** A grid that holds `region` inside `rect` and agrees with `before`
      everywhere else is `before` with `region` pasted in. */
  lemma PastedPointwise(before: seq<seq<Pixel>>, after: seq<seq<Pixel>>, rect: Rect, region: seq<seq<Pixel>>)
    requires Rectangular(before) && rect.Within(|before|, Width(before))
    requires IsGrid(after, |before|, Width(before)) && IsGrid(region, rect.Height(), rect.Breadth())
    requires forall i, j :: 0 <= i < |before| && 0 <= j < Width(before) ==>
               after[i][j] == if rect.Contains(i, j) then region[i - rect.top][j - rect.left] else before[i][j]
    ensures after == Paste(before, rect, region)
  {
    GridEq(after, Paste(before, rect, region), |before|, Width(before));
  }

  /** `frame[top:bottom, left:right] = region`. */
  method WriteRegion(frame: array2<Pixel>, rect: Rect, region: seq<seq<Pixel>>)
    requires rect.Within(frame.Length0, frame.Length1) && rect.Height() >= 1
    requires IsGrid(region, rect.Height(), rect.Breadth())
    modifies frame
    ensures Grid(frame) == Paste(old(Grid(frame)), rect, region)
  {
    ghost var before := Grid(frame);
    forall i, j | rect.top <= i < rect.bottom && rect.left <= j < rect.right {
      frame[i, j] := region[i - rect.top][j - rect.left];
    }
    ghost var after := Grid(frame);
    assert forall i, j :: 0 <= i < frame.Length0 && 0 <= j < frame.Length1 ==>
             after[i][j] == if rect.Contains(i, j) then region[i - rect.top][j - rect.left] else before[i][j];
    PastedPointwise(before, after, rect, region);
  }

  /** One pass of the loop body for detection `d`: clamp the box, slice its
      region, blur it and write it back. The frame afterwards is `Step` of
      the frame before. */
  method BlurDetection(frame: array2<Pixel>, d: Box, mode: int, kernelSize: int, blur: Blurrer)
    requires Fits(d, frame.Length0, frame.Length1)
    modifies frame
    ensures Grid(frame) == Step(old(Grid(frame)), d, mode, kernelSize, blur)
  {
    var height, width := frame.Length0, frame.Length1;
    var x, y, w, h := d.x, d.y, d.w, d.h;
    x := Max(0, x);
    y := Max(0, y);
    w := Max(1, w);
    h := Max(1, h);
    assert Box(x, y, w, h) == Clamp(d);
    assert Width(Grid(frame)) == width;
    var rect := Truncate(Box(x, y, w, h), height, width);
    var faceRegion := ReadRegion(frame, rect);
    var blurred := ApplyBlur(faceRegion, mode, kernelSize, blur);
    WriteRegion(frame, rect, blurred);
  }

  /** The detection loop of `update_frame`: blur every detection into the
      frame in place, in order. The frame ends as the fold of the detections
      over the incoming frame. */
  method BlurAll(frame: array2<Pixel>, detections: seq<Box>, mode: int, kernelSize: int, blur: Blurrer)
    requires AllFit(detections, frame.Length0, frame.Length1)
    modifies frame
    ensures Grid(frame) == ApplyAll(old(Grid(frame)), detections, mode, kernelSize, blur)
  {
    var height, width := frame.Length0, frame.Length1;
    ghost var g0 := Grid(frame);
    assert |detections| > 0 ==> height > 0 && Width(g0) == width by {
      if |detections| > 0 { assert Fits(detections[0], height, width); }
    }
    for n := 0 to |detections|
      invariant Rectangular(Grid(frame)) && |Grid(frame)| == height && Width(Grid(frame)) == Width(g0)
      invariant AllFit(detections[..n], height, Width(g0))
      invariant Grid(frame) == ApplyAll(g0, detections[..n], mode, kernelSize, blur)
    {
      BlurDetection(frame, detections[n], mode, kernelSize, blur);
      ApplyAllPrefixStep(g0, detections, n, mode, kernelSize, blur);
    }
    assert detections[..|detections|] == detections;
  }

  /** The body of `update_frame` after capture and detection: look up the
      kernel size of the intensity level, then blur every detection into the
      frame in place. `ok` is false when the lookup raises (the frame is then
      untouched); otherwise the frame ends as the fold of the detections over
      the incoming frame, and no pixel outside every detection's region
      changes. */
  method UpdateFrame(frame: array2<Pixel>, detections: seq<Box>, level: int, mode: int, blur: Blurrer)
    returns (ok: bool)
    requires AllFit(detections, frame.Length0, frame.Length1)
    modifies frame
    ensures ok <==> KernelLookup(level).Some?
    ensures !ok ==> Grid(frame) == old(Grid(frame))
    ensures ok ==> Grid(frame) == ApplyAll(old(Grid(frame)), detections, mode, KernelLookup(level).value, blur)
    ensures forall i, j ::
              0 <= i < frame.Length0 && 0 <= j < frame.Length1 && OutsideAll(detections, frame.Length0, frame.Length1, i, j)
              ==> frame[i, j] == old(frame[i, j])
  {
    var lookup := KernelLookup(level);
    if lookup.None? {
      ok := false;
      return;
    }
    var kernelSize := lookup.value;
    ok := true;
    ghost var g0 := Grid(frame);
    BlurAll(frame, detections, mode, kernelSize, blur);
    forall i, j | 0 <= i < frame.Length0 && 0 <= j < frame.Length1 &&
                  OutsideAll(detections, frame.Length0, frame.Length1, i, j)
      ensures frame[i, j] == old(frame[i, j])
    {
      UntouchedPixelsUnchanged(g0, detections, mode, kernelSize, blur, i, j);
    }
  }
}
