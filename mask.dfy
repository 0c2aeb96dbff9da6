/** Construction of the single-channel blur mask of a face region.

    A mask entry is 255 where the region is to be blurred and 0 where the
    original pixels are kept. The mask is built white-on-black in three
    channels and converted to grey; both colours used, (0, 0, 0) and
    (255, 255, 255), convert to grey 0 and 255, so the model builds the grey
    mask directly. */
module MaskBuilder {
  import opened Image

  /** Mode selector values offered by the blur-mode box. */
  const SoftPolygon := 3
  const FullFacialMask := 4

  const Opaque: byte := 255
  const Transparent: byte := 0

  /** The point `(px, py)` lies in the filled axis-aligned ellipse with centre
      `(cx, cy)` and semi-axes `a` (horizontal) and `b` (vertical), that is
      `(dx / a)^2 + (dy / b)^2 <= 1` with the denominators cleared. OpenCV's
      rasterisation of the outline is replaced by this analytic test. */
  predicate InEllipse(px: int, py: int, cx: int, cy: int, a: int, b: int)
    ensures py == cy && (px == cx || px == cx - a || px == cx + a) ==> InEllipse(px, py, cx, cy, a, b)
    ensures px == cx && (py == cy - b || py == cy + b) ==> InEllipse(px, py, cx, cy, a, b)
    ensures a >= 1 && b >= 1 && InEllipse(px, py, cx, cy, a, b) ==>
              cx - a <= px <= cx + a && cy - b <= py <= cy + b
  {
    var dx, dy := px - cx, py - cy;
    EllipseAxisPoints(dx, dy, a, b);
    EllipseWithinAxes(dx, dy, a, b);
    dx * dx * (b * b) + dy * dy * (a * a) <= (a * a) * (b * b)
  }

  /** `int(h * 0.60)`: the vertical semi-axis, truncated toward zero. It is
      the largest whole number not above three fifths of the height. */
  function VerticalSemiAxis(h: nat): (r: nat)
    ensures 5 * r <= 3 * h < 5 * r + 5
  {
    (h * 3) / 5
  }

  /** The position `(i, j)` (row, column) of an `h x w` region is inside the
      face ellipse: centre `(w // 2, h // 2)`, semi-axes `(w // 2, int(h * 0.60))`.
      The centre and the four ends of the two axes are inside it, and with
      both semi-axes positive nothing outside the box they span is. */
  predicate InFaceEllipse(h: nat, w: nat, i: int, j: int)
    ensures i == h / 2 && j == w / 2 ==> InFaceEllipse(h, w, i, j)
    ensures i == h / 2 && (j == w / 2 - w / 2 || j == w / 2 + w / 2) ==> InFaceEllipse(h, w, i, j)
    ensures j == w / 2 && (i == h / 2 - VerticalSemiAxis(h) || i == h / 2 + VerticalSemiAxis(h)) ==>
              InFaceEllipse(h, w, i, j)
    ensures w >= 2 && h >= 2 && InFaceEllipse(h, w, i, j) ==>
              w / 2 - w / 2 <= j <= w / 2 + w / 2 &&
              h / 2 - VerticalSemiAxis(h) <= i <= h / 2 + VerticalSemiAxis(h)
  {
    InEllipse(j, i, w / 2, h / 2, w / 2, VerticalSemiAxis(h))
  }

  /** The centre and the four ends of the axes satisfy the ellipse test. */
  lemma EllipseAxisPoints(dx: int, dy: int, a: int, b: int)
    ensures (dy == 0 && (dx == 0 || dx == a || dx == -a)) || (dx == 0 && (dy == b || dy == -b)) ==>
              dx * dx * (b * b) + dy * dy * (a * a) <= (a * a) * (b * b)
  {
    if dy == 0 && (dx == 0 || dx == a || dx == -a) {
      assert dx * dx <= a * a;
      assert dy * dy * (a * a) == 0;
      MulMonotone(dx * dx, a * a, b * b);
    } else if dx == 0 && (dy == b || dy == -b) {
      assert dy * dy == b * b;
      assert dx * dx * (b * b) == 0;
      assert dy * dy * (a * a) == (b * b) * (a * a);
    }
  }

  lemma MulMonotone(x: int, y: int, z: int)
    requires x <= y && z >= 0
    ensures x * z <= y * z
  {
    assert y * z - x * z == (y - x) * z;
    NonNegProduct(y - x, z);
  }

  /** A point of the ellipse with positive semi-axes `a` and `b` is at most
      `a` columns and `b` rows away from its centre. */
  lemma EllipseWithinAxes(dx: int, dy: int, a: int, b: int)
    ensures a >= 1 && b >= 1 && dx * dx * (b * b) + dy * dy * (a * a) <= (a * a) * (b * b) ==>
              -a <= dx <= a && -b <= dy <= b
  {
    if a >= 1 && b >= 1 {
      NonNegProduct(dy * dy, a * a);
      NonNegProduct(dx * dx, b * b);
      MulStrict(dx * dx, a * a, b * b);
      MulStrict(dy * dy, b * b, a * a);
      SquareGrows(dx, a);
      SquareGrows(dy, b);
    }
  }

  lemma NonNegProduct(x: int, y: int)
    requires x >= 0 && y >= 0
    ensures x * y >= 0
  {
  }

  lemma MulStrict(x: int, y: int, z: int)
    requires z >= 1
    ensures x > y ==> x * z > y * z
  {
    if x > y {
      assert x * z - y * z == (x - y) * z;
      MulAtLeastOne(x - y, z);
    }
  }

  /** Beyond `a` on either side, the square exceeds `a * a`. */
  lemma SquareGrows(d: int, a: int)
    requires a >= 0
    ensures d > a || d < -a ==> d * d > a * a
  {
    var e := if d < 0 then -d else d;
    assert d * d == e * e;
    if e > a {
      MulStrict(e, a, e);
      if a >= 1 {
        MulStrict(e, a, a);
      }
    }
  }

  /** A black `h x w` mask with a filled white ellipse drawn on it. */
  function EllipseMask(h: nat, w: nat, cx: int, cy: int, a: int, b: int): (m: seq<seq<byte>>)
    ensures IsGrid(m, h, w)
    ensures forall i, j :: 0 <= i < h && 0 <= j < w ==>
              (m[i][j] == Opaque <==> InEllipse(j, i, cx, cy, a, b)) &&
              (m[i][j] == Opaque || m[i][j] == Transparent)
  {
    seq(h, i requires 0 <= i < h =>
      seq(w, j requires 0 <= j < w =>
        if InEllipse(j, i, cx, cy, a, b) then Opaque else Transparent))
  }

  /** An all-white `h x w` mask. */
  function FullMask(h: nat, w: nat): (m: seq<seq<byte>>)
    ensures IsGrid(m, h, w)
    ensures forall i, j :: 0 <= i < h && 0 <= j < w ==> m[i][j] == Opaque
  {
    seq(h, i requires 0 <= i < h => seq(w, j requires 0 <= j < w => Opaque))
  }

  /** The mask for an `h x w` face region in the given mode: an ellipse in
      mode 3, the full rectangle in mode 4 and, as a fallback, in every
      other mode. */
  function BuildMask(h: nat, w: nat, mode: int): (m: seq<seq<byte>>)
    ensures IsGrid(m, h, w)
    ensures forall i, j :: 0 <= i < h && 0 <= j < w ==> m[i][j] == Opaque || m[i][j] == Transparent
  {
    if mode == SoftPolygon then
      EllipseMask(h, w, w / 2, h / 2, w / 2, VerticalSemiAxis(h))
    else if mode == FullFacialMask then
      FullMask(h, w)
    else
      FullMask(h, w)
  }

  /** Reference description of the mask, position by position: blurred
      everywhere unless the mode is the soft polygon, where only the face
      ellipse is blurred. */
  predicate MaskOpaqueAt(mode: int, h: nat, w: nat, i: int, j: int)
    ensures mode != SoftPolygon ==> MaskOpaqueAt(mode, h, w, i, j)
    ensures i == h / 2 && j == w / 2 ==> MaskOpaqueAt(mode, h, w, i, j)
    ensures MaskOpaqueAt(mode, h, w, i, j) && w >= 2 && h >= 2 && mode == SoftPolygon ==>
              0 <= j <= 2 * (w / 2) && h / 2 - VerticalSemiAxis(h) <= i <= h / 2 + VerticalSemiAxis(h)
  {
    mode != SoftPolygon || InFaceEllipse(h, w, i, j)
  }

  lemma BuildMaskMatchesReference(h: nat, w: nat, mode: int)
    ensures forall i, j :: 0 <= i < h && 0 <= j < w ==>
              BuildMask(h, w, mode)[i][j] == if MaskOpaqueAt(mode, h, w, i, j) then Opaque else Transparent
  {
  }

  /** The fallback for an unrecognised mode is the very same mask as mode 4. */
  lemma FallbackIsFullMask(h: nat, w: nat, mode: int)
    requires mode != SoftPolygon
    ensures BuildMask(h, w, mode) == BuildMask(h, w, FullFacialMask)
    ensures BuildMask(h, w, mode) == FullMask(h, w)
  {
  }

  /** The soft-polygon mask covers the centre pixel of every non-empty region. */
  lemma SoftMaskCentreOpaque(h: nat, w: nat)
    requires h >= 1 && w >= 1
    ensures BuildMask(h, w, SoftPolygon)[h / 2][w / 2] == Opaque
  {
  }

  /** A point on the left or right edge of the face ellipse's bounding
      columns, `|dx| == a`, is outside the ellipse as soon as it is off the
      centre row and the horizontal semi-axis is positive. */
  lemma OffCentreOnHorizontalExtremeOutside(dx: int, dy: int, a: int, b: int)
    requires a >= 1 && (dx == a || dx == -a) && dy != 0
    ensures dx * dx * (b * b) + dy * dy * (a * a) > (a * a) * (b * b)
  {
    assert dx * dx == a * a;
    assert dy * dy >= 1;
    assert a * a >= 1;
    assert dy * dy * (a * a) >= 1 by {
      MulAtLeastOne(dy * dy, a * a);
    }
  }

  lemma MulAtLeastOne(x: int, y: int)
    requires x >= 1 && y >= 1
    ensures x * y >= 1
  {
  }

  /** With the analytic ellipse, the two left corners of a soft-polygon mask
      are never blurred once the region is at least 2 wide and 3 high. */
  lemma SoftMaskLeftCornersTransparent(h: nat, w: nat)
    requires h >= 3 && w >= 2
    ensures BuildMask(h, w, SoftPolygon)[0][0] == Transparent
    ensures BuildMask(h, w, SoftPolygon)[h - 1][0] == Transparent
  {
    var a, b := w / 2, VerticalSemiAxis(h);
    OffCentreOnHorizontalExtremeOutside(0 - a, 0 - h / 2, a, b);
    OffCentreOnHorizontalExtremeOutside(0 - a, h - 1 - h / 2, a, b);
  }

  /** For an odd width the analytic ellipse is horizontally symmetric in the
      region, so the two right corners are not blurred either. */
  lemma SoftMaskRightCornersTransparentForOddWidth(h: nat, w: nat)
    requires h >= 3 && w >= 3 && w % 2 == 1
    ensures BuildMask(h, w, SoftPolygon)[0][w - 1] == Transparent
    ensures BuildMask(h, w, SoftPolygon)[h - 1][w - 1] == Transparent
  {
    var a, b := w / 2, VerticalSemiAxis(h);
    OffCentreOnHorizontalExtremeOutside(w - 1 - a, 0 - h / 2, a, b);
    OffCentreOnHorizontalExtremeOutside(w - 1 - a, h - 1 - h / 2, a, b);
  }

  /** Below those sizes the corners need not be transparent: in a region
      one pixel wide the horizontal semi-axis is 0 and every pixel of the
      column is blurred. */
  lemma SoftMaskOneWideFullyOpaque(h: nat)
    ensures forall i :: 0 <= i < h ==> BuildMask(h, 1, SoftPolygon)[i][0] == Opaque
  {
    forall i | 0 <= i < h ensures InFaceEllipse(h, 1, i, 0) {
      var b := VerticalSemiAxis(h);
      var dy := i - h / 2;
      assert 0 * 0 * (b * b) + dy * dy * (0 * 0) <= (0 * 0) * (b * b);
    }
  }

  /** For an even width the right-hand column is one short of the semi-axis,
      and because the vertical semi-axis (0.6 h) exceeds half the height the
      top-right corner of a narrow region can fall inside the analytic
      ellipse: a 4-wide, 5-high region is blurred at its top-right corner. */
  lemma SoftMaskTopRightCornerOpaqueExample()
    ensures BuildMask(5, 4, SoftPolygon)[0][3] == Opaque
  {
    assert InFaceEllipse(5, 4, 0, 3);
  }
}
