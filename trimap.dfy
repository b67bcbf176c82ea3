/** `TrimapGenerationService` of backend/app/services/trimap.py: the trimap of a
    binary mask (sure background 0, unknown 128, sure foreground 255) and the
    aspect-preserving downscale of an image. */
module Trimap {
  import opened Wrappers
  import opened Images

  /** Pixels above this value count as mask. */
  const Threshold: int := 127

  const SureBackground: int := 0
  const Unknown: int := 128
  const SureForeground: int := 255

  /** A structuring element: the (dy, dx) offsets from its anchor that it covers. */
  type Kernel = set<(int, int)>

  /** The kernel covers its own anchor, as every `cv2.MORPH_ELLIPSE` element of size 1 or more does. */
  predicate HasAnchor(k: Kernel) {
    (0, 0) in k
  }

  predicate InBounds(h: int, w: int, y: int, x: int) {
    0 <= y < h && 0 <= x < w
  }

  // ------------------------------------------------------------ binarise

  /** `(mask > 127).astype(np.uint8) * 255`. */
  function Binarize(m: seq<seq<int>>, h: nat, w: nat): (b: seq<seq<int>>)
    requires IsGrid(m, h, w)
    ensures IsGrid(b, h, w)
    ensures forall y, x :: 0 <= y < h && 0 <= x < w ==>
      (b[y][x] == 255 <==> m[y][x] > Threshold) && (b[y][x] == 0 <==> m[y][x] <= Threshold)
  {
    seq(h, y requires 0 <= y < h => seq(w, x requires 0 <= x < w => if m[y][x] > Threshold then 255 else 0))
  }

  // --------------------------------------------------- erosion, dilation

  /** Pixel (y, x) of the 0/255 grid b is inside the grid and on. */
  predicate On(b: seq<seq<int>>, h: nat, w: nat, y: int, x: int)
    requires IsGrid(b, h, w)
  {
    InBounds(h, w, y, x) && b[y][x] == 255
  }

  /** Every neighbour under the kernel that lies inside the grid is on. Neighbours
      outside the grid do not count, as with cv2's default border for erosion. */
  predicate AllOn(b: seq<seq<int>>, h: nat, w: nat, k: Kernel, y: int, x: int)
    requires IsGrid(b, h, w)
  {
    forall o :: o in k && InBounds(h, w, y + o.0, x + o.1) ==> On(b, h, w, y + o.0, x + o.1)
  }

  /** Some neighbour under the kernel is on. */
  predicate AnyOn(b: seq<seq<int>>, h: nat, w: nat, k: Kernel, y: int, x: int)
    requires IsGrid(b, h, w)
  {
    exists o :: o in k && On(b, h, w, y + o.0, x + o.1)
  }

  /** `cv2.erode` of a 0/255 mask: the minimum over the kernel's neighbourhood. */
  function Erode(b: seq<seq<int>>, h: nat, w: nat, k: Kernel): (e: seq<seq<int>>)
    requires IsGrid(b, h, w)
    ensures IsGrid(e, h, w)
    ensures forall y, x :: 0 <= y < h && 0 <= x < w ==>
      e[y][x] == (if AllOn(b, h, w, k, y, x) then 255 else 0)
  {
    seq(h, y requires 0 <= y < h => seq(w, x requires 0 <= x < w => if AllOn(b, h, w, k, y, x) then 255 else 0))
  }

  /** `cv2.dilate` of a 0/255 mask: the maximum over the kernel's neighbourhood. */
  function Dilate(b: seq<seq<int>>, h: nat, w: nat, k: Kernel): (d: seq<seq<int>>)
    requires IsGrid(b, h, w)
    ensures IsGrid(d, h, w)
    ensures forall y, x :: 0 <= y < h && 0 <= x < w ==>
      d[y][x] == (if AnyOn(b, h, w, k, y, x) then 255 else 0)
  {
    seq(h, y requires 0 <= y < h => seq(w, x requires 0 <= x < w => if AnyOn(b, h, w, k, y, x) then 255 else 0))
  }

  /** `g == v` elementwise. */
  function EqualTo(g: seq<seq<int>>, h: nat, w: nat, v: int): (s: seq<seq<bool>>)
    requires IsGrid(g, h, w)
    ensures IsGrid(s, h, w)
    ensures forall y, x :: 0 <= y < h && 0 <= x < w ==> s[y][x] == (g[y][x] == v)
  {
    seq(h, y requires 0 <= y < h => seq(w, x requires 0 <= x < w => g[y][x] == v))
  }

  /** `p & q` elementwise. */
  function Both(p: seq<seq<bool>>, q: seq<seq<bool>>, h: nat, w: nat): (s: seq<seq<bool>>)
    requires IsGrid(p, h, w) && IsGrid(q, h, w)
    ensures IsGrid(s, h, w)
    ensures forall y, x :: 0 <= y < h && 0 <= x < w ==> s[y][x] == (p[y][x] && q[y][x])
  {
    seq(h, y requires 0 <= y < h => seq(w, x requires 0 <= x < w => p[y][x] && q[y][x]))
  }

  // -------------------------------------------------------------- trimap

  /** The binarised mask. */
  function Binary(mask: Raster<int>): (b: seq<seq<int>>)
    requires mask.Valid()
    ensures IsGrid(b, mask.h, mask.w)
  {
    Binarize(mask.px, mask.h, mask.w)
  }

  /** The eroded mask (`foreground` in the source). */
  function Eroded(mask: Raster<int>, k: Kernel): (e: seq<seq<int>>)
    requires mask.Valid()
    ensures IsGrid(e, mask.h, mask.w)
  {
    Erode(Binary(mask), mask.h, mask.w, k)
  }

  /** The dilated mask (`background` in the source). */
  function Dilated(mask: Raster<int>, k: Kernel): (d: seq<seq<int>>)
    requires mask.Valid()
    ensures IsGrid(d, mask.h, mask.w)
  {
    Dilate(Binary(mask), mask.h, mask.w, k)
  }

  /** The trimap `create_trimap` builds: a zeroed grid and three masked writes, in
      the source's order. */
  function TrimapOf(mask: Raster<int>, erosion: Kernel, dilation: Kernel): (t: seq<seq<int>>)
    requires mask.Valid()
    ensures IsGrid(t, mask.h, mask.w)
  {
    var h, w := mask.h, mask.w;
    var fg := Eroded(mask, erosion);
    var bg := Dilated(mask, dilation);
    var t0 := Filled(h, w, 0);
    var t1 := MaskedAssign(t0, EqualTo(bg, h, w, 0), SureBackground, h, w);
    var t2 := MaskedAssign(t1, EqualTo(fg, h, w, 255), SureForeground, h, w);
    MaskedAssign(t2, Both(EqualTo(bg, h, w, 255), EqualTo(fg, h, w, 0), h, w), Unknown, h, w)
  }

  /** `create_trimap`: builds the two elliptic kernels, allocates a zeroed array
      and applies the three masked writes in place. */
  method CreateTrimap(cv: Cv2, mask: Raster<int>, erosionSize: int, dilationSize: int) returns (trimap: array2<int>)
    requires mask.Valid()
    ensures fresh(trimap)
    ensures trimap.Length0 == mask.h && trimap.Length1 == mask.w
    ensures Snapshot(trimap) == TrimapOf(mask, cv.ellipse(erosionSize), cv.ellipse(dilationSize))
  {
    var h, w := mask.h, mask.w;
    var binary := Binarize(mask.px, h, w);
    var erosionKernel := cv.ellipse(erosionSize);
    var dilationKernel := cv.ellipse(dilationSize);
    var foreground := Erode(binary, h, w, erosionKernel);
    var background := Dilate(binary, h, w, dilationKernel);
    trimap := new int[h, w]((y, x) => 0);
    GridExt(Snapshot(trimap), Filled(h, w, 0), h, w);
    MaskedWrite(trimap, EqualTo(background, h, w, 0), SureBackground);
    MaskedWrite(trimap, EqualTo(foreground, h, w, 255), SureForeground);
    MaskedWrite(trimap, Both(EqualTo(background, h, w, 255), EqualTo(foreground, h, w, 0), h, w), Unknown);
  }

  /** The trimap `create_trimap` returns for kernel sizes e and d, as a raster. */
  function TrimapFor(cv: Cv2, mask: Raster<int>, e: int, d: int): (t: Raster<int>)
    requires mask.Valid()
    ensures t.Valid() && t.Shape() == mask.Shape()
  {
    Raster(mask.h, mask.w, TrimapOf(mask, cv.ellipse(e), cv.ellipse(d)))
  }

  /** One trimap pixel in terms of the eroded and dilated masks. The first write
      (`background == 0` to 0) leaves the zeroed array as it is; the unknown write
      comes last but only touches pixels the foreground write did not. */
  lemma TrimapPixel(mask: Raster<int>, erosion: Kernel, dilation: Kernel, y: int, x: int)
    requires mask.Valid() && InBounds(mask.h, mask.w, y, x)
    ensures var b := Binary(mask);
            TrimapOf(mask, erosion, dilation)[y][x] ==
              if AllOn(b, mask.h, mask.w, erosion, y, x) then SureForeground
              else if AnyOn(b, mask.h, mask.w, dilation, y, x) then Unknown
              else SureBackground
  {
  }

  /** Every trimap pixel is 0, 128 or 255, and the trimap has the mask's shape. */
  lemma TrimapValues(mask: Raster<int>, erosion: Kernel, dilation: Kernel)
    requires mask.Valid()
    ensures var t := TrimapOf(mask, erosion, dilation);
            IsGrid(t, mask.h, mask.w) &&
            forall y, x :: 0 <= y < mask.h && 0 <= x < mask.w ==> t[y][x] in {SureBackground, Unknown, SureForeground}
  {
    forall y, x | 0 <= y < mask.h && 0 <= x < mask.w
      ensures TrimapOf(mask, erosion, dilation)[y][x] in {SureBackground, Unknown, SureForeground}
    {
      TrimapPixel(mask, erosion, dilation, y, x);
    }
  }

  /** The three labelling rules, for any kernels: eroded 255 gives 255; dilated 255
      with eroded 0 gives 128; dilated 0 with eroded 0 gives 0. */
  lemma TrimapRules(mask: Raster<int>, erosion: Kernel, dilation: Kernel, y: int, x: int)
    requires mask.Valid() && InBounds(mask.h, mask.w, y, x)
    ensures var t, fg, bg := TrimapOf(mask, erosion, dilation), Eroded(mask, erosion), Dilated(mask, dilation);
            && (fg[y][x] == 255 ==> t[y][x] == SureForeground)
            && (bg[y][x] == 255 && fg[y][x] == 0 ==> t[y][x] == Unknown)
            && (bg[y][x] == 0 && fg[y][x] == 0 ==> t[y][x] == SureBackground)
  {
    TrimapPixel(mask, erosion, dilation, y, x);
  }

  /** With kernels that cover their anchors, erosion lies within the mask and the
      mask within the dilation. */
  lemma ErosionWithinMaskWithinDilation(mask: Raster<int>, erosion: Kernel, dilation: Kernel, y: int, x: int)
    requires mask.Valid() && InBounds(mask.h, mask.w, y, x)
    requires HasAnchor(erosion) && HasAnchor(dilation)
    ensures Eroded(mask, erosion)[y][x] == 255 ==> Binary(mask)[y][x] == 255
    ensures Binary(mask)[y][x] == 255 ==> Dilated(mask, dilation)[y][x] == 255
  {
    var b := Binary(mask);
    if Binary(mask)[y][x] == 255 {
      assert On(b, mask.h, mask.w, y + 0, x + 0);
    } else {
      assert InBounds(mask.h, mask.w, y + 0, x + 0);
    }
  }

  /** With anchored kernels a pixel is 0 exactly when its dilated value is 0, and
      so every sure foreground pixel is a mask pixel and every sure background pixel
      is not. */
  lemma TrimapAgreesWithMask(mask: Raster<int>, erosion: Kernel, dilation: Kernel, y: int, x: int)
    requires mask.Valid() && InBounds(mask.h, mask.w, y, x)
    requires HasAnchor(erosion) && HasAnchor(dilation)
    ensures var t := TrimapOf(mask, erosion, dilation);
            && (Dilated(mask, dilation)[y][x] == 0 <==> t[y][x] == SureBackground)
            && (t[y][x] == SureForeground ==> mask.px[y][x] > Threshold)
            && (t[y][x] == SureBackground ==> mask.px[y][x] <= Threshold)
  {
    TrimapPixel(mask, erosion, dilation, y, x);
    ErosionWithinMaskWithinDilation(mask, erosion, dilation, y, x);
  }

  // -------------------------------------------------------------- resize

  function Max(a: int, b: int): int {
    if a >= b then a else b
  }

  function Abs(a: int): nat {
    if a >= 0 then a else -a
  }

  /** Python's `int(a / b)`: the quotient truncated toward zero. */
  function TruncDiv(a: int, b: int): (q: int)
    requires b != 0
    ensures Abs(q) == Abs(a) / Abs(b)
    ensures q < 0 ==> (a < 0) != (b < 0)
    ensures (a < 0) != (b < 0) ==> q <= 0
  {
    var m := Abs(a) / Abs(b);
    DivNonNegative(Abs(a), Abs(b));
    if (a >= 0) == (b > 0) then m else -m
  }

  lemma DivNonNegative(n: nat, d: nat)
    requires d > 0
    ensures n / d >= 0
  {
  }

  /** q is the floor of a * m / b, and at most m. */
  predicate IsScaledSide(q: int, a: nat, m: int, b: nat) {
    0 <= q <= m && q * b <= a * m < (q + 1) * b
  }

  lemma ScaledSide(a: nat, m: int, b: nat)
    requires a <= b && b > 0
    ensures m >= 0 ==> IsScaledSide(TruncDiv(a * m, b), a, m, b)
  {
    if m < 0 { return; }
    var n := a * m;
    MulMono(a, b, m);
    assert TruncDiv(n, b) == n / b;
    FloorDiv(n, b);
    QuotientBound(n, b, m);
  }

  lemma MulMono(a: nat, b: nat, m: nat)
    requires a <= b
    ensures 0 <= a * m <= b * m
  {
    assert b * m - a * m == (b - a) * m;
  }

  lemma FloorDiv(n: nat, b: nat)
    requires b > 0
    ensures 0 <= n / b && (n / b) * b <= n < (n / b + 1) * b
  {
    var q, rem := n / b, n % b;
    assert n == q * b + rem && 0 <= rem < b;
    assert (q + 1) * b == q * b + b;
  }

  lemma QuotientBound(n: nat, b: nat, m: nat)
    requires b > 0 && n <= b * m
    ensures n / b <= m
  {
    var q := n / b;
    FloorDiv(n, b);
    assert (m - q) * b == m * b - q * b;
    NonNegativeFactor(m - q, b);
  }

  lemma NonNegativeFactor(x: int, b: int)
    requires b > 0 && x * b >= 0
    ensures x >= 0
  {
  }

  /** The size `resize_image` targets for an image of shape (h, w). */
  function ResizeTarget(h: nat, w: nat, maxSize: int): (r: Result<Size, Error>)
    ensures Max(h, w) <= maxSize ==> r == Ok(Size(h, w))
    ensures r.Err? <==> Max(h, w) > maxSize && w == 0 && h == 0
    ensures r.Err? ==> r.error == ZeroDivisionError
    ensures Max(h, w) > maxSize && h > w ==> r.Ok? && r.value.h == maxSize
    ensures Max(h, w) > maxSize && h <= w && r.Ok? ==> r.value.w == maxSize
    ensures Max(h, w) > maxSize >= 0 && h > w ==> IsScaledSide(r.value.w, w, maxSize, h)
    ensures Max(h, w) > maxSize >= 0 && h <= w ==> r.Ok? && IsScaledSide(r.value.h, h, maxSize, w)
  {
    if Max(h, w) <= maxSize then Ok(Size(h, w))
    else if h > w then
      ScaledSide(w, maxSize, h);
      Ok(Size(maxSize, TruncDiv(w * maxSize, h)))
    else if w == 0 then Err(ZeroDivisionError)
    else
      ScaledSide(h, maxSize, w);
      Ok(Size(TruncDiv(h * maxSize, w), maxSize))
  }

  /** `resize_image`: the image, downscaled when its longer side exceeds maxSize,
      and its original `shape[:2]`. */
  function ResizeImage(cv: Cv2, image: Raster<Rgb>, maxSize: int): (r: Result<(Raster<Rgb>, Size), Error>)
    ensures Max(image.h, image.w) <= maxSize ==> r == Ok((image, image.Shape()))
    ensures r.Ok? ==> r.value.1 == image.Shape()
    ensures r.Ok? && Max(image.h, image.w) > maxSize ==>
      && ResizeTarget(image.h, image.w, maxSize).Ok?
      && ResizeTarget(image.h, image.w, maxSize).value.h > 0
      && ResizeTarget(image.h, image.w, maxSize).value.w > 0
    ensures ResizesToTarget(cv) && r.Ok? && Max(image.h, image.w) > maxSize ==>
      r.value.0.Valid() && Ok(r.value.0.Shape()) == ResizeTarget(image.h, image.w, maxSize)
    ensures r.Ok? <==> || Max(image.h, image.w) <= maxSize
                       || (&& ResizeTarget(image.h, image.w, maxSize).Ok?
                           && ResizeTarget(image.h, image.w, maxSize).value.h > 0
                           && ResizeTarget(image.h, image.w, maxSize).value.w > 0)
    ensures r.Err? ==> r.error == if ResizeTarget(image.h, image.w, maxSize).Err?
                                  then ResizeTarget(image.h, image.w, maxSize).error
                                  else EmptyTarget
    ensures r.Ok? && Max(image.h, image.w) > maxSize ==>
      r.value.0 == cv.resizeRgb(image, ResizeTarget(image.h, image.w, maxSize).value, Linear)
  {
    var originalSize := image.Shape();
    if Max(image.h, image.w) <= maxSize then Ok((image, originalSize))
    else
      match ResizeTarget(image.h, image.w, maxSize)
      case Err(e) => Err(e)
      case Ok(target) =>
        match ResizeRgb(cv, image, target, Linear)
        case Err(e) => Err(e)
        case Ok(resized) => Ok((resized, originalSize))
  }

  /** A non-empty target comes from a non-empty image. */
  lemma ResizeTargetPositive(h: nat, w: nat, maxSize: int)
    requires ResizeTarget(h, w, maxSize).Ok?
    requires ResizeTarget(h, w, maxSize).value.h > 0 && ResizeTarget(h, w, maxSize).value.w > 0
    ensures h > 0 && w > 0
  {
  }

  /** A resize that happens always changes the shape, so comparing shapes, as the
      callers do, tells whether the image was resized. */
  lemma ResizedShapeDiffers(cv: Cv2, image: Raster<Rgb>, maxSize: int)
    requires ResizesToTarget(cv)
    ensures ResizeImage(cv, image, maxSize).Ok? ==>
      ((ResizeImage(cv, image, maxSize).value.0.Shape() != image.Shape()) <==> Max(image.h, image.w) > maxSize)
  {
  }
}
