/** Rasters as the services see them (numpy arrays of shape (h, w) or (h, w, 3)),
    numpy's masked assignment `a[sel] = v`, and the library calls of OpenCV and
    PIL that the services make, as opaque operations. */
module Images {
  import opened Wrappers

  /** A `uint8` channel value. */
  type Byte = x: int | 0 <= x < 256

  datatype Rgb = Rgb(r: Byte, g: Byte, b: Byte)

  const Black: Rgb := Rgb(0, 0, 0)

  /** A numpy `shape[:2]`: height, then width. cv2 takes it the other way round. */
  datatype Size = Size(h: int, w: int)

  /** g is a rectangular grid of h rows of w pixels. */
  predicate IsGrid<T>(g: seq<seq<T>>, h: nat, w: nat) {
    |g| == h && forall y :: 0 <= y < h ==> |g[y]| == w
  }

  /** A decoded raster: its shape and its rows of pixels. */
  datatype Raster<T> = Raster(h: nat, w: nat, px: seq<seq<T>>) {
    predicate Valid() {
      IsGrid(px, h, w)
    }

    function Shape(): Size {
      Size(h, w)
    }
  }

  /** The pixel value of numpy's `a[sel] = v` at one pixel. */
  function Assigned<T>(prev: T, sel: bool, v: T): T {
    if sel then v else prev
  }

  /** `a[sel] = v` on a grid value: every selected pixel becomes v, every other one keeps its value. */
  function MaskedAssign<T>(g: seq<seq<T>>, sel: seq<seq<bool>>, v: T, h: nat, w: nat): (r: seq<seq<T>>)
    requires IsGrid(g, h, w) && IsGrid(sel, h, w)
    ensures IsGrid(r, h, w)
    ensures forall y, x :: 0 <= y < h && 0 <= x < w ==> r[y][x] == Assigned(g[y][x], sel[y][x], v)
  {
    seq(h, y requires 0 <= y < h => seq(w, x requires 0 <= x < w => Assigned(g[y][x], sel[y][x], v)))
  }

  /** `np.zeros((h, w))` as a grid value. */
  function Filled<T>(h: nat, w: nat, v: T): (r: seq<seq<T>>)
    ensures IsGrid(r, h, w)
    ensures forall y, x :: 0 <= y < h && 0 <= x < w ==> r[y][x] == v
  {
    seq(h, y => seq(w, x => v))
  }

  /** The current contents of a 2-D array, row by row. */
  function Snapshot<T>(a: array2<T>): (g: seq<seq<T>>)
    reads a
    ensures IsGrid(g, a.Length0, a.Length1)
    ensures forall y, x :: 0 <= y < a.Length0 && 0 <= x < a.Length1 ==> g[y][x] == a[y, x]
  {
    seq(a.Length0, y requires 0 <= y < a.Length0 reads a =>
      seq(a.Length1, x requires 0 <= x < a.Length1 reads a => a[y, x]))
  }

  /** Two grids of the same shape that agree on every pixel are equal. */
  lemma GridExt<T>(g: seq<seq<T>>, k: seq<seq<T>>, h: nat, w: nat)
    requires IsGrid(g, h, w) && IsGrid(k, h, w)
    requires forall y, x :: 0 <= y < h && 0 <= x < w ==> g[y][x] == k[y][x]
    ensures g == k
  {
    forall y | 0 <= y < h
      ensures g[y] == k[y]
    {
      assert forall x :: 0 <= x < w ==> g[y][x] == k[y][x];
    }
  }

  /** numpy's `a[sel] = v`, in place. */
  method MaskedWrite<T>(a: array2<T>, sel: seq<seq<bool>>, v: T)
    requires IsGrid(sel, a.Length0, a.Length1)
    modifies a
    ensures Snapshot(a) == MaskedAssign(old(Snapshot(a)), sel, v, a.Length0, a.Length1)
  {
    ghost var before := Snapshot(a);
    for y := 0 to a.Length0
      invariant forall i, j :: 0 <= i < y && 0 <= j < a.Length1 ==> a[i, j] == Assigned(before[i][j], sel[i][j], v)
      invariant forall i, j :: y <= i < a.Length0 && 0 <= j < a.Length1 ==> a[i, j] == before[i][j]
    {
      for x := 0 to a.Length1
        invariant forall i, j :: 0 <= i < y && 0 <= j < a.Length1 ==> a[i, j] == Assigned(before[i][j], sel[i][j], v)
        invariant forall j :: 0 <= j < x ==> a[y, j] == Assigned(before[y][j], sel[y][j], v)
        invariant forall i, j :: y < i < a.Length0 && 0 <= j < a.Length1 ==> a[i, j] == before[i][j]
        invariant forall j :: x <= j < a.Length1 ==> a[y, j] == before[y][j]
      {
        if sel[y][x] {
          a[y, x] := v;
        }
      }
    }
    GridExt(Snapshot(a), MaskedAssign(before, sel, v, a.Length0, a.Length1), a.Length0, a.Length1);
  }

  // ------------------------------------------------------------ libraries

  /** The interpolation flag of `cv2.resize`. */
  datatype Interpolation = Nearest | Linear

  /** The OpenCV calls the services make. Their pixel arithmetic is not modelled:
      `resize*` stand for `cv2.resize(src, (w, h), interpolation=...)` and
      `ellipse(k)` for `cv2.getStructuringElement(cv2.MORPH_ELLIPSE, (k, k))`,
      given as the set of (dy, dx) offsets from the anchor. */
  datatype Cv2 = Cv2(
    resizeRgb: (Raster<Rgb>, Size, Interpolation) -> Raster<Rgb>,
    resizeGray: (Raster<int>, Size, Interpolation) -> Raster<int>,
    ellipse: int -> set<(int, int)>)

  /** What the model relies on of OpenCV: a resize to a non-empty size returns a
      raster of exactly that size. */
  ghost predicate ResizesToTarget(cv: Cv2) {
    && (forall img: Raster<Rgb>, s: Size, m: Interpolation :: s.h > 0 && s.w > 0 ==>
          cv.resizeRgb(img, s, m).Valid() && cv.resizeRgb(img, s, m).Shape() == s)
    && (forall img: Raster<int>, s: Size, m: Interpolation :: s.h > 0 && s.w > 0 ==>
          cv.resizeGray(img, s, m).Valid() && cv.resizeGray(img, s, m).Shape() == s)
  }

  /** The error `cv2.resize` raises for a target size with a non-positive side. */
  const EmptyTarget: Error := Cv2Error("resize: empty target size")

  /** `cv2.resize` asserts that the target size is not empty. */
  function ResizeRgb(cv: Cv2, img: Raster<Rgb>, s: Size, m: Interpolation): Result<Raster<Rgb>, Error> {
    if s.h <= 0 || s.w <= 0 then Err(EmptyTarget)
    else Ok(cv.resizeRgb(img, s, m))
  }

  function ResizeGray(cv: Cv2, img: Raster<int>, s: Size, m: Interpolation): Result<Raster<int>, Error> {
    if s.h <= 0 || s.w <= 0 then Err(EmptyTarget)
    else Ok(cv.resizeGray(img, s, m))
  }

  /** The services' conditional resize of a single-channel raster: to `after`
      when the image's shape changed from `before` to `after`, untouched otherwise. */
  function ResizeIfChanged(cv: Cv2, g: Raster<int>, before: Size, after: Size, m: Interpolation): (r: Result<Raster<int>, Error>)
    ensures before == after ==> r == Ok(g)
    ensures before != after ==> r == ResizeGray(cv, g, after, m)
    ensures ResizesToTarget(cv) && r.Ok? && before != after ==> r.value.Valid() && r.value.Shape() == after
  {
    if before != after then ResizeGray(cv, g, after, m) else Ok(g)
  }

  /** `Image.open(io.BytesIO(data)).convert("RGB")` and `.convert("L")`; None when
      PIL cannot decode the bytes. */
  datatype Pil = Pil(
    decodeRgb: seq<Byte> -> Option<Raster<Rgb>>,
    decodeGray: seq<Byte> -> Option<Raster<int>>)

  /** What the model relies on of PIL: a decoded raster is rectangular. */
  ghost predicate DecodesRectangular(pil: Pil) {
    && (forall data: seq<Byte> :: pil.decodeRgb(data).Some? ==> pil.decodeRgb(data).value.Valid())
    && (forall data: seq<Byte> :: pil.decodeGray(data).Some? ==> pil.decodeGray(data).value.Valid())
  }
}
