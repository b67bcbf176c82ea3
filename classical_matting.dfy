/** `ClassicalMattingService` of backend/app/services/classical_matting.py: the
    algorithm whitelist, the validation and dispatch in front of the pymatting
    estimators, and the pipeline of `generate_matte`. The estimators and
    `estimate_foreground_ml` are opaque functions. */
module ClassicalMatting {
  import opened Wrappers
  import opened Images
  import opened Text
  import Trimap
  import Matting

  const ValidAlgorithms: seq<string> := ["cf", "knn", "lbdm", "lkm"]

  /** `str(self.valid_algorithms)`. */
  const ValidAlgorithmsRepr: string := "['cf', 'knn', 'lbdm', 'lkm']"

  /** An estimator: image and trimap to alpha matte, or the message of the
      exception it raised. */
  type Estimator = (Raster<Rgb>, Raster<int>) -> Result<Raster<int>, string>

  /** `estimate_alpha_cf`, `_knn`, `_lbdm` and `_lkm`. */
  datatype Estimators = Estimators(cf: Estimator, knn: Estimator, lbdm: Estimator, lkm: Estimator)

  /** `shape[:2]`. */
  function ShapePrefix(shape: seq<nat>): (p: seq<nat>)
    ensures |shape| >= 2 ==> p == shape[..2]
    ensures |shape| < 2 ==> p == shape
  {
    if |shape| < 2 then shape else shape[..2]
  }

  function ShapeMismatch(imageShape: seq<nat>, trimapShape: seq<nat>): Error {
    ValueError("Image and trimap shape mismatch: " + TupleRepr(ShapePrefix(imageShape)) + " vs " + TupleRepr(trimapShape))
  }

  function NotThreeChannel(imageShape: seq<nat>): Error {
    ValueError("Image must be 3-channel, got shape: " + TupleRepr(imageShape))
  }

  /** The `except` clause: any exception becomes a RuntimeError naming the algorithm. */
  function AlgorithmFailed(algorithm: string, msg: string): Error {
    RuntimeError("Matting algorithm " + algorithm + " failed: " + msg)
  }

  /** An estimator's outcome as `_apply_matting_algorithm` passes it on. */
  function Wrapped(algorithm: string, outcome: Result<Raster<int>, string>): Result<Raster<int>, Error> {
    match outcome
    case Ok(alpha) => Ok(alpha)
    case Err(msg) => Err(AlgorithmFailed(algorithm, msg))
  }

  /** `_apply_matting_algorithm` on two arrays with the given numpy shapes: the shape check, then the channel check, then
      exactly the named estimator; inside the `try` every failure, the
      unsupported-name ValueError included, leaves as a RuntimeError. */
  function ApplyMattingAlgorithm(image: Raster<Rgb>, imageShape: seq<nat>, trimap: Raster<int>, trimapShape: seq<nat>,
                                 algorithm: string, est: Estimators): (r: Result<Raster<int>, Error>)
    ensures ShapePrefix(imageShape) != trimapShape ==> r == Err(ShapeMismatch(imageShape, trimapShape))
    ensures ShapePrefix(imageShape) == trimapShape && (|imageShape| != 3 || imageShape[2] != 3) ==>
      r == Err(NotThreeChannel(imageShape))
    ensures ShapePrefix(imageShape) == trimapShape && |imageShape| == 3 && imageShape[2] == 3 ==>
      && (algorithm == "cf" ==> r == Wrapped(algorithm, est.cf(image, trimap)))
      && (algorithm == "knn" ==> r == Wrapped(algorithm, est.knn(image, trimap)))
      && (algorithm == "lbdm" ==> r == Wrapped(algorithm, est.lbdm(image, trimap)))
      && (algorithm == "lkm" ==> r == Wrapped(algorithm, est.lkm(image, trimap)))
      && (algorithm !in ValidAlgorithms ==> r == Err(AlgorithmFailed(algorithm, "Unsupported algorithm: " + algorithm)))
      && (r.Err? ==> r.error.RuntimeError?)
  {
    if ShapePrefix(imageShape) != trimapShape then Err(ShapeMismatch(imageShape, trimapShape))
    else if |imageShape| != 3 || imageShape[2] != 3 then Err(NotThreeChannel(imageShape))
    else
      var outcome :=
        if algorithm == "cf" then est.cf(image, trimap)
        else if algorithm == "knn" then est.knn(image, trimap)
        else if algorithm == "lbdm" then est.lbdm(image, trimap)
        else if algorithm == "lkm" then est.lkm(image, trimap)
        else Err("Unsupported algorithm: " + algorithm);
      Wrapped(algorithm, outcome)
  }

  // --------------------------------------------------------- generate_matte

  /** `estimate_foreground_ml(image, alpha)`: the foreground colours, or the
      exception it raised (re-raised unchanged by the `except` clause). */
  type ForegroundEstimator = (Raster<Rgb>, Raster<int>) -> Result<Raster<Rgb>, Error>

  /** `np.dstack((foreground_rgb, alpha))`: an RGBA image at the working size. */
  datatype Foreground = Foreground(rgb: Raster<Rgb>, alpha: Raster<int>)

  datatype ParamValue = IntParam(i: int) | StrParam(s: string)

  /** The response, with the images as rasters rather than base64 PNGs. */
  datatype ClassicalResult = ClassicalResult(
    alpha: Raster<int>,
    trimap: Raster<int>,
    original: Raster<Rgb>,
    foreground: Foreground,
    imageSize: Size,
    algorithm: string,
    parameters: map<string, ParamValue>)

  function ClassicalParameters(erosionSize: int, dilationSize: int, maxSize: int, algorithm: string): map<string, ParamValue> {
    map["erosion_kernel_size" := IntParam(erosionSize), "dilation_kernel_size" := IntParam(dilationSize),
        "max_size" := IntParam(maxSize), "algorithm" := StrParam(algorithm)]
  }

  function InvalidAlgorithm(algorithm: string): Error {
    ValueError("Invalid algorithm: " + algorithm + ". Valid options: " + ValidAlgorithmsRepr)
  }

  /** The numpy shapes of an RGB raster and of a single-channel one. */
  function RgbShape(g: Raster<Rgb>): seq<nat> {
    [g.h, g.w, 3]
  }

  function GrayShape(g: Raster<int>): seq<nat> {
    [g.h, g.w]
  }

  /** `generate_matte`: checks the algorithm before touching the bytes; decodes
      image and mask; works at the downscaled size with the mask resized to
      follow; estimates alpha and foreground there; scales matte and trimap (not
      the foreground) back when the image was downscaled. */
  function GenerateMatte(pil: Pil, cv: Cv2, est: Estimators, foregroundMl: ForegroundEstimator,
                         imageBytes: seq<Byte>, maskBytes: seq<Byte>,
                         erosionSize: int, dilationSize: int, maxSize: int, algorithm: string): (r: Result<ClassicalResult, Error>)
    requires DecodesRectangular(pil) && ResizesToTarget(cv)
    ensures algorithm !in ValidAlgorithms ==> r == Err(InvalidAlgorithm(algorithm))
    ensures algorithm in ValidAlgorithms && (pil.decodeRgb(imageBytes).None? || pil.decodeGray(maskBytes).None?) ==>
      r == Err(DecodeError)
    ensures algorithm in ValidAlgorithms && pil.decodeRgb(imageBytes).Some? && pil.decodeGray(maskBytes).Some? ==>
      var image, mask := pil.decodeRgb(imageBytes).value, pil.decodeGray(maskBytes).value;
      var params := ClassicalParameters(erosionSize, dilationSize, maxSize, algorithm);
      && (Trimap.ResizeImage(cv, image, maxSize).Err? ==> r == Err(Trimap.ResizeImage(cv, image, maxSize).error))
      && (Trimap.Max(image.h, image.w) <= maxSize ==>
            var t := Trimap.TrimapFor(cv, mask, erosionSize, dilationSize);
            var alpha := ApplyMattingAlgorithm(image, RgbShape(image), t, GrayShape(t), algorithm, est);
            && (alpha.Err? ==> r == Err(alpha.error))
            && (mask.Shape() != image.Shape() ==> alpha == Err(ShapeMismatch(RgbShape(image), GrayShape(mask))))
            && (mask.Shape() == image.Shape() ==> alpha.Ok? || alpha.error.RuntimeError?)
            && (alpha.Ok? && foregroundMl(image, alpha.value).Err? ==> r == Err(foregroundMl(image, alpha.value).error))
            && (alpha.Ok? && foregroundMl(image, alpha.value).Ok? ==>
                  r == Ok(ClassicalResult(alpha.value, t, image, Foreground(foregroundMl(image, alpha.value).value, alpha.value),
                                          image.Shape(), algorithm, params))))
      && (Trimap.Max(image.h, image.w) > maxSize && Trimap.ResizeImage(cv, image, maxSize).Ok? ==>
            var target := Trimap.ResizeTarget(image.h, image.w, maxSize).value;
            var small := cv.resizeRgb(image, target, Linear);
            var t := Trimap.TrimapFor(cv, cv.resizeGray(mask, target, Nearest), erosionSize, dilationSize);
            var alpha := ApplyMattingAlgorithm(small, RgbShape(small), t, GrayShape(t), algorithm, est);
            && (alpha.Err? ==> r == Err(alpha.error) && alpha.error.RuntimeError?)
            && (alpha.Ok? && foregroundMl(small, alpha.value).Err? ==> r == Err(foregroundMl(small, alpha.value).error))
            && (alpha.Ok? && foregroundMl(small, alpha.value).Ok? ==>
                  r == Ok(ClassicalResult(cv.resizeGray(alpha.value, image.Shape(), Linear), cv.resizeGray(t, image.Shape(), Nearest),
                                          image, Foreground(foregroundMl(small, alpha.value).value, alpha.value),
                                          image.Shape(), algorithm, params))))
    ensures r.Ok? ==>
      && algorithm in ValidAlgorithms && pil.decodeRgb(imageBytes).Some? && pil.decodeGray(maskBytes).Some?
      && var image, mask := pil.decodeRgb(imageBytes).value, pil.decodeGray(maskBytes).value;
         && r.value.original == image
         && r.value.imageSize == image.Shape()
         && r.value.algorithm == algorithm
         && r.value.parameters == ClassicalParameters(erosionSize, dilationSize, maxSize, algorithm)
         && (Trimap.Max(image.h, image.w) <= maxSize ==>
               r.value.trimap == Trimap.TrimapFor(cv, mask, erosionSize, dilationSize))
         && (Trimap.Max(image.h, image.w) > maxSize ==>
               && r.value.alpha.Valid() && r.value.alpha.Shape() == image.Shape()
               && r.value.trimap.Valid() && r.value.trimap.Shape() == image.Shape())
  {
    if algorithm !in ValidAlgorithms then Err(InvalidAlgorithm(algorithm))
    else
      match pil.decodeRgb(imageBytes)
      case None => Err(DecodeError)
      case Some(image) =>
        match pil.decodeGray(maskBytes)
        case None => Err(DecodeError)
        case Some(mask) =>
          match Matting.Prepare(cv, image, mask, erosionSize, dilationSize, maxSize)
          case Err(e) => Err(e)
          case Ok(p) =>
            match ApplyMattingAlgorithm(p.resized, RgbShape(p.resized), p.trimap, GrayShape(p.trimap), algorithm, est)
            case Err(e) => Err(e)
            case Ok(alpha) =>
              match foregroundMl(p.resized, alpha)
              case Err(e) => Err(e)
              case Ok(foregroundRgb) =>
                match Matting.Restore(cv, alpha, p.trimap, p.resized.Shape(), p.originalSize)
                case Err(e) => Err(e)
                case Ok((alphaOut, trimapOut)) =>
                  Ok(ClassicalResult(alphaOut, trimapOut, image, Foreground(foregroundRgb, alpha), p.originalSize, algorithm,
                                     ClassicalParameters(erosionSize, dilationSize, maxSize, algorithm)))
  }
}
