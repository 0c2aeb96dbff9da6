# Real-time face blur: the per-frame anonymisation pipeline

This project models the per-frame core of a webcam face-anonymiser (`main.py`)
and proves properties of that model. For each captured frame, the program
does the following:

1. It looks up a Gaussian kernel size for the intensity slider's level in the
   table `[15, 25, 45, 75, 99]`.
2. It takes the face boxes the detector found, in pixels. For each box in
   list order it:
   - raises the origin to at least 0 and the extent to at least 1;
   - reads the region `frame[y:y+h, x:x+w]`, which numpy's slicing cuts to the
     frame;
   - blurs the region;
   - builds a mask for the region: an ellipse in mode 3, the whole rectangle in
     mode 4 and in every other mode;
   - composites the blurred and original pixels through the mask;
   - writes the result back into the same slice of the frame, in place.

The model has five modules:

- `Image` (`image.dfy`): 8-bit pixels and pixel grids. `Extract` reads a
  rectangle of a grid and `Paste` writes one back; they are the numpy slice
  read and the slice assignment. Two round-trip lemmas connect them.
- `Kernel` (`kernel.dfy`): the kernel table and its lookup with Python's list
  indexing. An index in `[-5, 0)` counts back from the end. Any other index
  outside the table raises `IndexError`, shown as `None`.
- `MaskBuilder` (`mask.dfy`): the grey mask (0 or 255 per pixel) for a
  region's height, width and mode. An independent reference predicate,
  `MaskOpaqueAt`, says where the mask is opaque. Further lemmas cover the
  fallback mode, the centre pixel and the corners.
- `Compositor` (`compositor.dfy`): the masked `bitwise_and`, `bitwise_not` and
  saturating `add` of OpenCV at the level of channels and pixels. The
  bitwise operations are defined bit by bit on 8-bit values. It proves
  that, with a binary mask, the composite picks the blurred pixel or the
  original one and never blends them. `ApplyBlur` is `apply_blur`. The
  Gaussian blur is a parameter of type `Blurrer`: any function that keeps the
  region's shape.
- `Anonymizer` (`anonymizer.dfy`): the detection loop.
  - `Clamp` models the box clamping and `SliceRange`/`Truncate` model
    Python's slice cut.
  - `ApplyAll` specifies the loop as a fold over the detections: each
    detection `Step`s the frame left by the ones before it.
  - `UpdateFrame` is the body of `update_frame` over an `array2<Pixel>`
    frame. `BlurAll` is its loop and `BlurDetection` one pass of it; the
    slice read is `ReadRegion` and the slice assignment `WriteRegion`. Each
    is proved to leave the frame as the fold (or the step) says.

## Behaviour of `main.py` worth knowing

- The vertical semi-axis of the ellipse is `int(h * 0.60)`, which truncates:
  it is the largest whole number not above three fifths of the height
  (`MaskBuilder.VerticalSemiAxis`).
- Only the lower bounds of a box are clamped, `x, y >= 0` and `w, h >= 1`.
  The box is cut to the frame by numpy's slicing alone (`Anonymizer.Truncate`).
- A box with a negative origin is moved, not cut: `x` is raised to 0 and `w`
  is kept (`Anonymizer.NegativeOriginShiftsBox`).
- The intensity level is not clamped: levels -4..0 index the kernel table
  from its end, and every other level outside 1..5 raises `IndexError`
  (`Kernel.KernelLookup`).
- In the model's analytic ellipse, the ellipse mask is not transparent at
  every corner: the top-right corner of a 4-wide, 5-high region lies inside
  it (`MaskBuilder.SoftMaskTopRightCornerOpaqueExample`), because the
  vertical semi-axis is larger than half the height. In the same analytic
  ellipse the two left corners are transparent once the region is at least
  2 wide and 3 high, and so are the two right corners once it is at least 3
  high and of odd width at least 3. Smaller regions can be opaque at a
  corner: a region 1 wide has a horizontal semi-axis of 0 and is opaque in
  its whole column (`MaskBuilder.SoftMaskOneWideFullyOpaque`).

## Model

| member | source | states |
|---|---|---|
| `Image.Extract` | main.py:92 | the region read is a grid of the rectangle's height and width whose entry `(i, j)` is the frame's pixel at `(top + i, left + j)` |
| `Image.Paste` | main.py:93 | the slice assignment keeps the frame's shape, puts the region's pixels inside the rectangle and leaves every pixel outside it as it was |
| `Image.ExtractPaste` | main.py:92-93 | reading back a region just written returns exactly what was written |
| `Image.PasteExtract` | main.py:92-93 | writing back a region unchanged leaves the frame unchanged |
| `Kernel.KernelLookup` | main.py:75 | `kernel_map[level - 1]` exists exactly for levels -4..5. Levels 1..5 give entry `level - 1`, levels -4..0 give the entry counted from the end, and any result is an entry of the table |
| `Kernel.KernelTableWellFormed` | main.py:42 | the table has 5 entries (one per slider level); each is odd and at least 3, and they strictly increase |
| `Kernel.SliderLevelsHaveOddKernels` | main.py:35 | every level the 1..5 slider produces has a kernel, which is odd, and level 3 gives 45 |
| `MaskBuilder.InEllipse` | main.py:53 | the filled ellipse, as the analytic test `(dx/a)² + (dy/b)² <= 1`, contains its centre and the four ends of its axes, and with positive semi-axes lies within the box `[cx-a, cx+a] x [cy-b, cy+b]` |
| `MaskBuilder.VerticalSemiAxis` | main.py:52 | `int(h * 0.60)` is the largest whole number `r` with `5r <= 3h`: a truncation, not a rounding |
| `MaskBuilder.InFaceEllipse` | main.py:51-53 | the face ellipse contains its centre `(h//2, w//2)` and the four ends of its axes; with both semi-axes positive, no point outside the box they span is inside it |
| `MaskBuilder.EllipseWithinAxes` | main.py:52-53 | a point passing the ellipse test with positive semi-axes `a` and `b` lies at most `a` columns and `b` rows from the centre |
| `MaskBuilder.EllipseAxisPoints` | main.py:51-53 | the centre and the four ends of the axes pass the ellipse test |
| `MaskBuilder.EllipseMask` | main.py:50-53 | a black mask with a filled white ellipse is a grid of the region's shape. Each entry is 0 or 255, and it is 255 exactly where the point lies in the ellipse |
| `MaskBuilder.FullMask` | main.py:56 | the all-255 mask has the region's shape and is 255 everywhere |
| `MaskBuilder.BuildMask` | main.py:48-59 | every mode gives a mask of the region's shape whose entries are all 0 or 255 |
| `MaskBuilder.MaskOpaqueAt` | main.py:48-59 | the reference for where the mask is opaque: everywhere in modes other than 3, always at the centre pixel, and in mode 3 only inside the box spanned by the ellipse's axes |
| `MaskBuilder.BuildMaskMatchesReference` | main.py:48-59 | the mask is 255 exactly where the reference says it is opaque: everywhere in modes other than 3, and in mode 3 inside the ellipse with centre `(w//2, h//2)` and semi-axes `(w//2, int(h*0.60))` |
| `MaskBuilder.FallbackIsFullMask` | main.py:54-59 | for any mode other than 3 the mask is identical to the mode-4 mask and to the full mask |
| `MaskBuilder.SoftMaskCentreOpaque` | main.py:50-53 | the ellipse mask covers the centre pixel `(h//2, w//2)` of every non-empty region |
| `MaskBuilder.SoftMaskLeftCornersTransparent` | main.py:50-53 | in a region at least 2 wide and 3 high, the top-left and bottom-left corners are outside the model's analytic ellipse |
| `MaskBuilder.SoftMaskRightCornersTransparentForOddWidth` | main.py:50-53 | for odd widths of at least 3 and heights of at least 3, the top-right and bottom-right corners are outside the model's analytic ellipse as well |
| `MaskBuilder.SoftMaskOneWideFullyOpaque` | main.py:51-53 | in the model's analytic ellipse, a region one pixel wide is blurred in every row, corners included, because its horizontal semi-axis `w // 2` is 0 |
| `MaskBuilder.SoftMaskTopRightCornerOpaqueExample` | main.py:51-53 | in the model's analytic ellipse, a 4-wide, 5-high region is blurred at its top-right corner, because the vertical semi-axis exceeds half the height |
| `Compositor.AndBits` | main.py:62-63 | the bitwise AND of the low `n` bits is an `n`-bit value no larger than its first operand |
| `Compositor.AndBitsSelf` | main.py:62-63 | ANDing an `n`-bit value with itself keeps every bit |
| `Compositor.NotBits` | main.py:62 | flipping the low `n` bits of an `n`-bit value gives its complement to `2^n - 1` |
| `Compositor.BitAnd` | main.py:62-63 | `bitwise_and` of two channel values is no larger than either, is 0 when either is 0, and keeps a value ANDed with itself |
| `Compositor.AndBitsSymmetric` | main.py:62-63 | the bitwise AND does not depend on the order of its operands |
| `Compositor.BitNot` | main.py:62 | `bitwise_not` of a channel value `x` is `255 - x`, so the mask values 0 and 255 swap |
| `Compositor.SatAdd` | main.py:64 | OpenCV's `add` of two channel values is their exact sum when it fits in a byte and 255 otherwise, and is never below either operand |
| `Compositor.MaskedAnd` | main.py:62-63 | `bitwise_and(src, src, mask=m)` at one pixel is black where `m` is 0 and the source pixel where `m` is not 0 |
| `Compositor.AddPixels` | main.py:64 | adding a black pixel to a pixel, on either side, leaves that pixel unchanged |
| `Compositor.CompositePixel` | main.py:61-64 | one output pixel is the blurred pixel where the mask is 255 and the original where it is 0: with a binary mask there is no blending |
| `Compositor.Composite` | main.py:61-64 | the composite of three same-shaped grids has their shape |
| `Compositor.CompositeOfGreyMaskBlends` | main.py:61-64 | the selection relies on a binary mask: a grey mask value of 1 lets both pieces through and the saturating add mixes them |
| `Compositor.CompositeSelects` | main.py:61-64 | every pixel of the composite is the blurred pixel where the mask is 255 and the original pixel where it is 0 |
| `Compositor.ApplyBlur` | main.py:44-64 | `apply_blur` returns a region of the input's shape. Each pixel is the blurred pixel where the mode's mask is opaque and the original pixel elsewhere |
| `Compositor.FullMaskBlursWholeRegion` | main.py:54-64 | in mode 4, or any mode other than 3, the output is exactly the blurred region |
| `Anonymizer.Clamp` | main.py:87-90 | after clamping, `x, y >= 0` and `w, h >= 1`. Values already in range pass through unchanged, and the others become the bound |
| `Anonymizer.SliceRange` | main.py:92 | a slice's index range lies within the sequence, and starts at `start` and ends at `min(stop, n)` when `start` is inside |
| `Anonymizer.SliceRangeSelects` | main.py:92 | a slice selects exactly the indices of `[start, stop)` that exist |
| `Anonymizer.Truncate` | main.py:92 | the region of a clamped box lies within the frame. When the origin is inside the frame, the region starts at `(y, x)` and spans `min(h, H - y)` rows and `min(w, W - x)` columns, at least one of each |
| `Anonymizer.TruncateIsBoxWithinFrame` | main.py:92-93 | a position is in the region iff it is in the box and in the frame: nothing outside the frame is touched |
| `Anonymizer.WideBoxCutAtRightEdge` | main.py:87-92 | a box at `x = 600` with `w = 100` on a 640-wide frame is cut to 40 columns |
| `Anonymizer.NegativeOriginShiftsBox` | main.py:87-92 | a box at `x = -20` with `w = 100` becomes columns 0..99: it is moved right, not cut |
| `Anonymizer.FitsIffOriginBeforeFrameEnd` | main.py:87-92 | a box's slice is non-empty exactly when the frame is non-empty and the box's origin is not beyond the frame's last row and last column (`y < H`, `x < W`; an origin on the last row or column fits); a negative origin always qualifies |
| `Anonymizer.Region` | main.py:87-92 | the slice `frame[y:y+h, x:x+w]` of a clamped box always lies inside the frame |
| `Anonymizer.RegionOfDetection` | main.py:87-92 | for a box that fits, the slice starts at the clamped origin and ends where the clamped box or the frame ends; for one that does not, it is empty |
| `Anonymizer.Step` | main.py:80-93 | one detection keeps the frame's shape |
| `Anonymizer.StepEffect` | main.py:92-93 | after one detection its region holds `apply_blur` of what the region held before, and every pixel outside the region is unchanged |
| `Anonymizer.ApplyAll` | main.py:80-93 | applying the detections in order keeps the frame's shape |
| `Anonymizer.NoDetectionsNoChange` | main.py:78-80 | with no detections the frame is unchanged |
| `Anonymizer.UntouchedPixelsUnchanged` | main.py:78-93 | a pixel outside the region of every detection keeps its value after all detections |
| `Anonymizer.ApplyAllSnoc` | main.py:80-93 | the last detection is applied to the frame as the earlier ones left it |
| `Anonymizer.ApplyAllPrefixStep` | main.py:80-93 | the fold over the first `n + 1` detections is the fold over the first `n` followed by detection `n` |
| `Anonymizer.ApplyAllAppend` | main.py:80-93 | applying `ds1 + ds2` is applying `ds1` and then `ds2` to the result |
| `Anonymizer.ApplyAllFirst` | main.py:80-93 | the first detection is applied to the incoming frame and the rest to its result: a left fold of `apply_blur` over the list |
| `Anonymizer.Grid` | main.py:79 | the frame buffer, read row by row, is a grid of its height and width holding the buffer's pixels |
| `Anonymizer.ReadRegion` | main.py:92 | `frame[top:bottom, left:right]` read from the buffer is the rectangle's region of the frame's grid |
| `Anonymizer.WriteRegion` | main.py:93 | the in-place slice assignment leaves the frame equal to `Paste` of the old frame |
| `Anonymizer.BlurDetection` | main.py:87-93 | one pass of the loop body (clamp, slice, `apply_blur`, write back) leaves the frame as one step of the fold |
| `Anonymizer.BlurAll` | main.py:78-93 | the loop over the detections, in place, leaves the frame equal to the fold of the detections over the incoming frame |
| `Anonymizer.UpdateFrame` | main.py:75-93 | the lookup fails exactly when `kernel_map[level - 1]` raises, and then the frame is untouched. Otherwise the frame ends as the fold of the detections over the incoming frame, and every pixel outside all regions keeps its value |

## Left out

- Capture, display and scheduling: the webcam read and release, BGR/RGB conversions, the ImageTk rendering, the Tk widgets, `root.after` and `mainloop`. They are I/O and UI plumbing. The mode and level are parameters of `UpdateFrame`.
- Face detection: the MediaPipe model is external. The detections are an input list of integer boxes, and an absent result is the empty list.
- Conversion of the relative box to pixels: `int(bbox.xmin * width)` and its siblings are floating-point arithmetic. The model starts from the integer box before clamping.
- Gaussian blur internals: the blur is a foreign OpenCV call with sigma 30. The model keeps it as an arbitrary function (`Blurrer`) of the region and the kernel size that keeps the region's shape. Nothing else about it is assumed.
- Ellipse rasterisation: OpenCV's outline drawing is replaced by the analytic inequality `dx²·b² + dy²·a² <= a²·b²` (`MaskBuilder.InEllipse`). For a zero semi-axis, which occurs only for 1-pixel-wide or 1-pixel-high regions, this choice decides which pixels are covered.
- The floating-point product `h * 0.60` is modelled as the integer `(h * 3) / 5`.
- Grey conversion of the mask: the three-channel mask is built directly as a grey one. Black and white convert to 0 and 255.
- A clamped box whose origin lies at or beyond the frame's right or bottom edge yields an empty slice, which OpenCV's blur rejects with an exception. `UpdateFrame` requires every clamped origin to be inside the frame (`Fits`) instead of modelling that exception.
- `UpdateFrame`: when the kernel lookup raises `IndexError`, the program drops the exception in the Tk callback and stops rescheduling frames. The model returns `ok == false` with the frame untouched and does not model the stopped loop.
- Aliasing of the numpy view: the region is read as a value before any pixel of it is written. This is what the code does, because `apply_blur` returns a new array before the slice assignment.
