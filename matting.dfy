/** The steps both matting services take around their alpha estimator: downscale
    the image, resize the mask to follow it, derive the trimap, and afterwards
    bring the matte and the trimap back to the original size. */
module Matting {
  import opened Wrappers
  import opened Images
  import Trimap

  /** The estimator's inputs: the (possibly downscaled) image, the original
      `shape[:2]`, the mask at the image's working size and its trimap. */
  datatype Prepared = Prepared(resized: Raster<Rgb>, originalSize: Size, mask: Raster<int>, trimap: Raster<int>)

  /** `resize_image`, then `cv2.resize(mask, ..., INTER_NEAREST)` only when the
      image's shape changed, then `create_trimap` on the result. */
  function Prepare(cv: Cv2, image: Raster<Rgb>, mask: Raster<int>, erosionSize: int, dilationSize: int, maxSize: int): (r: Result<Prepared, Error>)
    requires mask.Valid() && ResizesToTarget(cv)
    ensures r.Ok? <==> Trimap.ResizeImage(cv, image, maxSize).Ok?
    ensures r.Err? ==> r.error == Trimap.ResizeImage(cv, image, maxSize).error
    ensures r.Ok? ==> && r.value.originalSize == image.Shape()
                      && r.value.mask.Valid()
                      && r.value.trimap == Trimap.TrimapFor(cv, r.value.mask, erosionSize, dilationSize)
    ensures Trimap.Max(image.h, image.w) <= maxSize ==> r.Ok? && r.value.resized == image && r.value.mask == mask
    ensures Trimap.Max(image.h, image.w) > maxSize && r.Ok? ==>
      && image.h > 0 && image.w > 0
      && Trimap.ResizeTarget(image.h, image.w, maxSize).Ok?
      && var target := Trimap.ResizeTarget(image.h, image.w, maxSize).value;
         && r.value.resized == cv.resizeRgb(image, target, Linear)
         && r.value.resized.Valid() && r.value.resized.Shape() == target
         && r.value.mask == cv.resizeGray(mask, target, Nearest)
         && r.value.mask.Shape() == target
  {
    match Trimap.ResizeImage(cv, image, maxSize)
    case Err(e) => Err(e)
    case Ok((resized, originalSize)) =>
      Trimap.ResizedShapeDiffers(cv, image, maxSize);
      assert Trimap.Max(image.h, image.w) > maxSize ==> image.h > 0 && image.w > 0 by {
        if Trimap.Max(image.h, image.w) > maxSize {
          Trimap.ResizeTargetPositive(image.h, image.w, maxSize);
        }
      }
      match ResizeIfChanged(cv, mask, image.Shape(), resized.Shape(), Nearest)
      case Err(e) => Err(e)
      case Ok(maskResized) =>
        Ok(Prepared(resized, originalSize, maskResized, Trimap.TrimapFor(cv, maskResized, erosionSize, dilationSize)))
  }

  /** `cv2.resize(alpha, original, INTER_LINEAR)` and `cv2.resize(trimap, original,
      INTER_NEAREST)` when the working shape differs from the original size. */
  function Restore(cv: Cv2, alpha: Raster<int>, trimap: Raster<int>, working: Size, original: Size): (r: Result<(Raster<int>, Raster<int>), Error>)
    ensures working == original ==> r == Ok((alpha, trimap))
    ensures working != original && original.h > 0 && original.w > 0 ==>
      r == Ok((cv.resizeGray(alpha, original, Linear), cv.resizeGray(trimap, original, Nearest)))
    ensures ResizesToTarget(cv) && r.Ok? && working != original ==>
      && r.value.0.Valid() && r.value.0.Shape() == original
      && r.value.1.Valid() && r.value.1.Shape() == original
  {
    match ResizeIfChanged(cv, alpha, working, original, Linear)
    case Err(e) => Err(e)
    case Ok(alphaOut) =>
      match ResizeIfChanged(cv, trimap, working, original, Nearest)
      case Err(e) => Err(e)
      case Ok(trimapOut) => Ok((alphaOut, trimapOut))
  }
}
