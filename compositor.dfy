/** Blurring a face region and compositing it with the original through
    the mask, as `apply_blur` does with OpenCV's array operations. */
module Compositor {
  import opened Image
  import opened MaskBuilder

  function Pow2(n: nat): (r: nat)
    ensures r >= 1
  {
    if n == 0 then 1 else 2 * Pow2(n - 1)
  }

  /** Bitwise AND of the low `n` bits of `x` and `y`, lowest bit first. */
  function AndBits(x: nat, y: nat, n: nat): (r: nat)
    ensures r < Pow2(n)
    ensures x < Pow2(n) ==> r <= x
  {
    if n == 0 then 0 else (x % 2) * (y % 2) + 2 * AndBits(x / 2, y / 2, n - 1)
  }

  /** The low `n` bits of `x`, each flipped: the complement of `x` to the
      largest `n`-bit value. */
  function NotBits(x: nat, n: nat): (r: nat)
    requires x < Pow2(n)
    ensures r == Pow2(n) - 1 - x
  {
    if n == 0 then 0 else (1 - x % 2) + 2 * NotBits(x / 2, n - 1)
  }

  /** ANDing a value with itself keeps every bit. */
  lemma {:induction false} AndBitsSelf(x: nat, n: nat)
    requires x < Pow2(n)
    ensures AndBits(x, x, n) == x
  {
    if n > 0 {
      AndBitsSelf(x / 2, n - 1);
    }
  }

  /** OpenCV's `bitwise_and` of two 8-bit channel values: no larger than
      either, zero when either is zero, and a value ANDed with itself is
      kept. */
  function BitAnd(x: byte, y: byte): (r: byte)
    ensures r <= x && r <= y
    ensures x == 0 || y == 0 ==> r == 0
    ensures x == y ==> r == x
  {
    assert Pow2(8) == 256;
    AndBitsSelf(x as nat, 8);
    AndBitsSymmetric(x as nat, y as nat, 8);
    AndBits(x as nat, y as nat, 8) as byte
  }

  /** The bitwise AND does not depend on the order of its operands. */
  lemma {:induction false} AndBitsSymmetric(x: nat, y: nat, n: nat)
    ensures AndBits(x, y, n) == AndBits(y, x, n)
  {
    if n > 0 {
      AndBitsSymmetric(x / 2, y / 2, n - 1);
    }
  }

  /** OpenCV's `bitwise_not` of an 8-bit channel value: every bit flipped,
      which is its complement to 255; the two values of a binary mask swap. */
  function BitNot(x: byte): (r: byte)
    ensures r as int == 255 - x as int
  {
    assert Pow2(8) == 256;
    NotBits(x as nat, 8) as byte
  }

  /** OpenCV's saturating `add` of two channel values: the exact sum when it
      fits in a byte, 255 when it does not. */
  function SatAdd(x: byte, y: byte): (r: byte)
    ensures x as int + y as int <= 255 ==> r as int == x as int + y as int
    ensures x as int + y as int > 255 ==> r == 255
    ensures r >= x && r >= y
  {
    var s := x as int + y as int;
    if s > 255 then 255 else s as byte
  }

  /** `bitwise_and(src, src, mask=m)` at one pixel: where the mask is zero the
      output keeps the zero it was initialised with; elsewhere it is the
      channel-wise AND, which for a source ANDed with itself is the source. */
  function MaskedAnd(src1: Pixel, src2: Pixel, m: byte): (r: Pixel)
    ensures m == 0 ==> r == Black
    ensures m != 0 && src1 == src2 ==> r == src1
  {
    if m != 0 then Pixel(BitAnd(src1.b, src2.b), BitAnd(src1.g, src2.g), BitAnd(src1.r, src2.r))
    else Black
  }

  /** `add` of two pixels, channel by channel; adding black changes nothing. */
  function AddPixels(p: Pixel, q: Pixel): (r: Pixel)
    ensures p == Black ==> r == q
    ensures q == Black ==> r == p
  {
    Pixel(SatAdd(p.b, q.b), SatAdd(p.g, q.g), SatAdd(p.r, q.r))
  }

  /** One output pixel: the original kept outside the mask (`face_bg`) plus
      the blurred pixel inside it (`face_fg`). With a mask value of 0 or 255
      exactly one of the two pieces is black, so the saturating add is exact
      and yields the blurred pixel (255) or the original one (0): no blending. */
  function CompositePixel(original: Pixel, blurred: Pixel, m: byte): (r: Pixel)
    ensures m == Opaque ==> r == blurred
    ensures m == Transparent ==> r == original
  {
    AddPixels(MaskedAnd(original, original, BitNot(m)), MaskedAnd(blurred, blurred, m))
  }

  /** The composite of `original` and `blurred` through `mask`, all `rows x cols`. */
  function Composite(original: seq<seq<Pixel>>, blurred: seq<seq<Pixel>>, mask: seq<seq<byte>>,
                     rows: nat, cols: nat): (r: seq<seq<Pixel>>)
    requires IsGrid(original, rows, cols) && IsGrid(blurred, rows, cols) && IsGrid(mask, rows, cols)
    ensures IsGrid(r, rows, cols)
  {
    seq(rows, i requires 0 <= i < rows =>
      seq(cols, j requires 0 <= j < cols =>
        CompositePixel(original[i][j], blurred[i][j], mask[i][j])))
  }

  /** The selection depends on the mask being binary: a grey mask value lets
      both pieces through and the saturating add mixes them. */
  lemma CompositeOfGreyMaskBlends()
    ensures CompositePixel(Pixel(200, 200, 200), Pixel(100, 100, 100), 1) == Pixel(255, 255, 255)
  {
  }

  /** Every composite pixel is the blurred one where the mask is opaque and
      the original one where it is transparent. */
  lemma CompositeSelects(original: seq<seq<Pixel>>, blurred: seq<seq<Pixel>>, mask: seq<seq<byte>>,
                         rows: nat, cols: nat)
    requires IsGrid(original, rows, cols) && IsGrid(blurred, rows, cols) && IsGrid(mask, rows, cols)
    requires forall i, j :: 0 <= i < rows && 0 <= j < cols ==> mask[i][j] == Opaque || mask[i][j] == Transparent
    ensures forall i, j :: 0 <= i < rows && 0 <= j < cols ==>
              Composite(original, blurred, mask, rows, cols)[i][j] ==
                if mask[i][j] == Opaque then blurred[i][j] else original[i][j]
  {
    var r := Composite(original, blurred, mask, rows, cols);
    forall i, j | 0 <= i < rows && 0 <= j < cols
      ensures r[i][j] == if mask[i][j] == Opaque then blurred[i][j] else original[i][j]
    {
      assert r[i][j] == CompositePixel(original[i][j], blurred[i][j], mask[i][j]);
    }
  }

  /** The Gaussian blur, as a function of the region and the kernel size
      that keeps the region's shape. */
  ghost predicate PreservesShape(f: (seq<seq<Pixel>>, int) -> seq<seq<Pixel>>) {
    forall g, k {:trigger f(g, k)} :: Rectangular(g) ==> IsGrid(f(g, k), |g|, Width(g))
  }

  type Blurrer = f: (seq<seq<Pixel>>, int) -> seq<seq<Pixel>> | PreservesShape(f)
    witness (g: seq<seq<Pixel>>, k: int) => g

  /** `apply_blur(face_region, mode, kernel_size)`: blur the region, build
      the mask for its shape and mode, and composite the two. Each output
      pixel is the blurred pixel where the mode's mask is opaque and the
      original pixel elsewhere. */
  function ApplyBlur(region: seq<seq<Pixel>>, mode: int, kernelSize: int, blur: Blurrer): (r: seq<seq<Pixel>>)
    requires Rectangular(region) && |region| >= 1 && Width(region) >= 1
    ensures IsGrid(r, |region|, Width(region))
    ensures IsGrid(blur(region, kernelSize), |region|, Width(region))
    ensures forall i, j :: 0 <= i < |region| && 0 <= j < Width(region) ==>
              r[i][j] == if MaskOpaqueAt(mode, |region|, Width(region), i, j)
                         then blur(region, kernelSize)[i][j] else region[i][j]
  {
    var h, w := |region|, Width(region);
    var blurred := blur(region, kernelSize);
    var mask := BuildMask(h, w, mode);
    CompositeSelects(region, blurred, mask, h, w);
    BuildMaskMatchesReference(h, w, mode);
    Composite(region, blurred, mask, h, w)
  }

  /** In mode 4, or any mode other than 3, the whole region is replaced by
      its blurred copy. */
  lemma FullMaskBlursWholeRegion(region: seq<seq<Pixel>>, mode: int, kernelSize: int, blur: Blurrer)
    requires Rectangular(region) && |region| >= 1 && Width(region) >= 1
    requires mode != SoftPolygon
    ensures ApplyBlur(region, mode, kernelSize, blur) == blur(region, kernelSize)
  {
    GridEq(ApplyBlur(region, mode, kernelSize, blur), blur(region, kernelSize), |region|, Width(region));
  }
}
