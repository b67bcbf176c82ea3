/** `ViTMatteService` of backend/app/services/vitmatte.py. The processor and the
    network together are one opaque function from the working image and trimap to
    the 0-255 alpha matte; the environment variable VITMATTE_MODEL is a parameter. */
module ViTMatte {
  import opened Wrappers
  import opened Images
  import Trimap
  import Matting

  const NotInitialized: string := "Model is not initialized. Please load the model first."

  const SmallModel: string := "hustvl/vitmatte-small-composition-1k"
  const BaseModel: string := "hustvl/vitmatte-base-composition-1k"

  const ModelMapping: map<string, string> := map["small" := SmallModel, "base" := BaseModel]

  // -------------------------------------------------------- _get_model_name

  /** `variant or os.getenv("VITMATTE_MODEL", "small")`: None and "" are falsy. */
  function ChosenVariant(variant: Option<string>, envVariant: Option<string>): (v: string)
    ensures variant.Some? && variant.value != "" ==> v == variant.value
    ensures variant.None? || variant.value == "" ==> v == envVariant.GetOr("small")
  {
    if variant.Some? && variant.value != "" then variant.value else envVariant.GetOr("small")
  }

  /** `_get_model_name`: the mapped name, the small model for any unknown variant
      (the lookup is case-sensitive). */
  function GetModelName(variant: Option<string>, envVariant: Option<string>): (r: string)
    ensures r == SmallModel || r == BaseModel
    ensures r == BaseModel <==> ChosenVariant(variant, envVariant) == "base"
  {
    var v := ChosenVariant(variant, envVariant);
    if v in ModelMapping then ModelMapping[v] else ModelMapping["small"]
  }

  /** A None or empty variant defers to VITMATTE_MODEL, and to "small" when that is unset. */
  lemma GetModelNameFallback(envVariant: Option<string>)
    ensures GetModelName(Some(""), envVariant) == GetModelName(None, envVariant)
    ensures GetModelName(None, None) == SmallModel
    ensures GetModelName(None, Some("base")) == BaseModel
  {
  }

  /** "Base" is not "base": case matters. */
  lemma GetModelNameCaseSensitive(envVariant: Option<string>)
    ensures GetModelName(Some("Base"), envVariant) == SmallModel
    ensures GetModelName(Some("BASE"), envVariant) == SmallModel
  {
  }

  // --------------------------------------------------------- _create_trimap

  /** `_create_trimap`, the service's own copy of `create_trimap`: it builds
      exactly the same trimap. */
  method CreateTrimap(cv: Cv2, mask: Raster<int>, erosionSize: int, dilationSize: int) returns (trimap: array2<int>)
    requires mask.Valid()
    ensures fresh(trimap)
    ensures trimap.Length0 == mask.h && trimap.Length1 == mask.w
    ensures Snapshot(trimap) == Trimap.TrimapOf(mask, cv.ellipse(erosionSize), cv.ellipse(dilationSize))
  {
    var h, w := mask.h, mask.w;
    var binary := Trimap.Binarize(mask.px, h, w);
    var erosionKernel := cv.ellipse(erosionSize);
    var dilationKernel := cv.ellipse(dilationSize);
    var foreground := Trimap.Erode(binary, h, w, erosionKernel);
    var background := Trimap.Dilate(binary, h, w, dilationKernel);
    trimap := new int[h, w]((y, x) => 0);
    GridExt(Snapshot(trimap), Filled(h, w, 0), h, w);
    MaskedWrite(trimap, Trimap.EqualTo(background, h, w, 0), Trimap.SureBackground);
    MaskedWrite(trimap, Trimap.EqualTo(foreground, h, w, 255), Trimap.SureForeground);
    MaskedWrite(trimap, Trimap.Both(Trimap.EqualTo(background, h, w, 255), Trimap.EqualTo(foreground, h, w, 0), h, w), Trimap.Unknown);
  }

  // ---------------------------------------------------------- _resize_image

  /** `_resize_image`, the service's own copy of `resize_image`: it computes the
      same sizes and returns the same pair. */
  function ResizeImage(cv: Cv2, image: Raster<Rgb>, maxSize: int): (r: Result<(Raster<Rgb>, Size), Error>)
    ensures r == Trimap.ResizeImage(cv, image, maxSize)
  {
    var originalSize := image.Shape();
    var h, w := image.h, image.w;
    if Trimap.Max(h, w) <= maxSize then Ok((image, originalSize))
    else if h > w then
      match ResizeRgb(cv, image, Size(maxSize, Trimap.TruncDiv(w * maxSize, h)), Linear)
      case Err(e) => Err(e)
      case Ok(resized) => Ok((resized, originalSize))
    else if w == 0 then Err(ZeroDivisionError)
    else
      match ResizeRgb(cv, image, Size(Trimap.TruncDiv(h * maxSize, w), maxSize), Linear)
      case Err(e) => Err(e)
      case Ok(resized) => Ok((resized, originalSize))
  }

  // ----------------------------------------------------------- the service

  /** The processor, the network and the `(alphas * 255).astype(np.uint8)` step:
      working image and trimap to alpha matte, or the exception the processor or
      the network raised (the `except` clause re-raises it unchanged). */
  type Matter = (Raster<Rgb>, Raster<int>) -> Result<Raster<int>, Error>

  /** The loaded state: the model and whether the processor is present. */
  datatype Service = Service(model: Option<Matter>, processorLoaded: bool) {
    predicate Ready() {
      model.Some? && processorLoaded
    }

    /** The network's alpha matte for a working image and trimap. */
    function Infer(image: Raster<Rgb>, trimap: Raster<int>): Result<Raster<int>, Error>
      requires Ready()
    {
      model.value(image, trimap)
    }

    /** The processor stacks the trimap onto the image as a fourth channel, which
        fails unless both have the same height and width. */
    ghost predicate RefusesMismatch() {
      model.Some? ==> forall image: Raster<Rgb>, trimap: Raster<int> ::
        image.Shape() != trimap.Shape() ==> model.value(image, trimap).Err?
    }
  }

  /** The response, with the images as rasters rather than base64 PNGs. */
  datatype MatteResult = MatteResult(
    alpha: Raster<int>,
    trimap: Raster<int>,
    original: Raster<Rgb>,
    imageSize: Size,
    parameters: map<string, int>)

  function MatteParameters(erosionSize: int, dilationSize: int, maxSize: int): map<string, int> {
    map["erosion_kernel_size" := erosionSize, "dilation_kernel_size" := dilationSize, "max_size" := maxSize]
  }

  /** `generate_matte`: refuses to run without model and processor; decodes the
      image and the mask; works at the downscaled size with the mask resized to
      follow; scales matte and trimap back when the image was downscaled. */
  function GenerateMatte(svc: Service, pil: Pil, cv: Cv2, imageBytes: seq<Byte>, maskBytes: seq<Byte>,
                         erosionSize: int, dilationSize: int, maxSize: int): (r: Result<MatteResult, Error>)
    requires DecodesRectangular(pil) && ResizesToTarget(cv)
    ensures !svc.Ready() ==> r == Err(RuntimeError(NotInitialized))
    ensures svc.Ready() && pil.decodeRgb(imageBytes).None? ==> r == Err(DecodeError)
    ensures svc.Ready() && pil.decodeGray(maskBytes).None? ==> r == Err(DecodeError)
    ensures svc.Ready() && pil.decodeRgb(imageBytes).Some? && pil.decodeGray(maskBytes).Some? ==>
      var image, mask := pil.decodeRgb(imageBytes).value, pil.decodeGray(maskBytes).value;
      var params := MatteParameters(erosionSize, dilationSize, maxSize);
      && (Trimap.ResizeImage(cv, image, maxSize).Err? ==> r == Err(Trimap.ResizeImage(cv, image, maxSize).error))
      && (Trimap.Max(image.h, image.w) <= maxSize ==>
            var t := Trimap.TrimapFor(cv, mask, erosionSize, dilationSize);
            && (svc.Infer(image, t).Err? ==> r == Err(svc.Infer(image, t).error))
            && (svc.Infer(image, t).Ok? ==> r == Ok(MatteResult(svc.Infer(image, t).value, t, image, image.Shape(), params))))
      && (Trimap.Max(image.h, image.w) > maxSize && Trimap.ResizeImage(cv, image, maxSize).Ok? ==>
            var target := Trimap.ResizeTarget(image.h, image.w, maxSize).value;
            var small := cv.resizeRgb(image, target, Linear);
            var t := Trimap.TrimapFor(cv, cv.resizeGray(mask, target, Nearest), erosionSize, dilationSize);
            && (svc.Infer(small, t).Err? ==> r == Err(svc.Infer(small, t).error))
            && (svc.Infer(small, t).Ok? ==>
                  r == Ok(MatteResult(cv.resizeGray(svc.Infer(small, t).value, image.Shape(), Linear),
                                      cv.resizeGray(t, image.Shape(), Nearest), image, image.Shape(), params))))
    ensures svc.Ready() && pil.decodeRgb(imageBytes).Some? && pil.decodeGray(maskBytes).Some? ==>
      var image, mask := pil.decodeRgb(imageBytes).value, pil.decodeGray(maskBytes).value;
      var p := Matting.Prepare(cv, image, mask, erosionSize, dilationSize, maxSize);
      r.Ok? <==> p.Ok? && svc.Infer(p.value.resized, p.value.trimap).Ok?
    ensures r.Ok? ==>
      && svc.Ready() && pil.decodeRgb(imageBytes).Some? && pil.decodeGray(maskBytes).Some?
      && var image, mask := pil.decodeRgb(imageBytes).value, pil.decodeGray(maskBytes).value;
         && r.value.original == image
         && r.value.imageSize == image.Shape()
         && r.value.parameters == MatteParameters(erosionSize, dilationSize, maxSize)
         && (Trimap.Max(image.h, image.w) <= maxSize ==>
               r.value.trimap == Trimap.TrimapFor(cv, mask, erosionSize, dilationSize))
         && (Trimap.Max(image.h, image.w) > maxSize ==>
               && r.value.alpha.Valid() && r.value.alpha.Shape() == image.Shape()
               && r.value.trimap.Valid() && r.value.trimap.Shape() == image.Shape())
  {
    if !svc.Ready() then Err(RuntimeError(NotInitialized))
    else
      match pil.decodeRgb(imageBytes)
      case None => Err(DecodeError)
      case Some(image) =>
        match pil.decodeGray(maskBytes)
        case None => Err(DecodeError)
        case Some(mask) =>
          match Matting.Prepare(cv, image, mask, erosionSize, dilationSize, maxSize)
          case Err(e) => Err(e)
          case Ok(p) =>
            match svc.Infer(p.resized, p.trimap)
            case Err(e) => Err(e)
            case Ok(alpha) =>
              match Matting.Restore(cv, alpha, p.trimap, p.resized.Shape(), p.originalSize)
              case Err(e) => Err(e)
              case Ok((alphaOut, trimapOut)) =>
                Ok(MatteResult(alphaOut, trimapOut, image, p.originalSize, MatteParameters(erosionSize, dilationSize, maxSize)))
  }

  /** Without a downscale, a mask whose size differs from the image's reaches the
      processor as a trimap of another size, and the call fails. */
  lemma GenerateMatteMismatchFails(svc: Service, pil: Pil, cv: Cv2, imageBytes: seq<Byte>, maskBytes: seq<Byte>,
                                   erosionSize: int, dilationSize: int, maxSize: int)
    requires DecodesRectangular(pil) && ResizesToTarget(cv) && svc.RefusesMismatch()
    requires pil.decodeRgb(imageBytes).Some? && pil.decodeGray(maskBytes).Some?
    requires var image := pil.decodeRgb(imageBytes).value; Trimap.Max(image.h, image.w) <= maxSize
    requires pil.decodeGray(maskBytes).value.Shape() != pil.decodeRgb(imageBytes).value.Shape()
    ensures GenerateMatte(svc, pil, cv, imageBytes, maskBytes, erosionSize, dilationSize, maxSize).Err?
  {
  }

  /** Without a downscale the returned trimap is the mask's trimap, so every pixel
      is 0, 128 or 255, 255 only inside the binarised mask and 0 only outside it. */
  lemma GenerateMatteTrimapLevels(svc: Service, pil: Pil, cv: Cv2, imageBytes: seq<Byte>, maskBytes: seq<Byte>,
                                  erosionSize: int, dilationSize: int, maxSize: int, y: int, x: int)
    requires DecodesRectangular(pil) && ResizesToTarget(cv)
    requires HasAnchors(cv, erosionSize, dilationSize)
    requires GenerateMatte(svc, pil, cv, imageBytes, maskBytes, erosionSize, dilationSize, maxSize).Ok?
    requires var image := pil.decodeRgb(imageBytes).value; Trimap.Max(image.h, image.w) <= maxSize
    requires var mask := pil.decodeGray(maskBytes).value; 0 <= y < mask.h && 0 <= x < mask.w
    ensures var t := GenerateMatte(svc, pil, cv, imageBytes, maskBytes, erosionSize, dilationSize, maxSize).value.trimap;
            var mask := pil.decodeGray(maskBytes).value;
            && t.Shape() == mask.Shape()
            && t.px[y][x] in {Trimap.SureBackground, Trimap.Unknown, Trimap.SureForeground}
            && (t.px[y][x] == Trimap.SureForeground ==> mask.px[y][x] > Trimap.Threshold)
            && (t.px[y][x] == Trimap.SureBackground ==> mask.px[y][x] <= Trimap.Threshold)
  {
    var mask := pil.decodeGray(maskBytes).value;
    Trimap.TrimapValues(mask, cv.ellipse(erosionSize), cv.ellipse(dilationSize));
    Trimap.TrimapAgreesWithMask(mask, cv.ellipse(erosionSize), cv.ellipse(dilationSize), y, x);
  }

  /** Both kernels contain their anchor. */
  ghost predicate HasAnchors(cv: Cv2, erosionSize: int, dilationSize: int) {
    Trimap.HasAnchor(cv.ellipse(erosionSize)) && Trimap.HasAnchor(cv.ellipse(dilationSize))
  }

  /** `generate_matte_from_trimap`: as `generate_matte`, with the decoded trimap
      in place of the derived one; the response carries that trimap at its
      decoded size and only max_size as a parameter. */
  function GenerateMatteFromTrimap(svc: Service, pil: Pil, cv: Cv2, imageBytes: seq<Byte>, trimapBytes: seq<Byte>,
                                   maxSize: int): (r: Result<MatteResult, Error>)
    requires DecodesRectangular(pil) && ResizesToTarget(cv)
    ensures !svc.Ready() ==> r == Err(RuntimeError(NotInitialized))
    ensures svc.Ready() && pil.decodeRgb(imageBytes).None? ==> r == Err(DecodeError)
    ensures svc.Ready() && pil.decodeGray(trimapBytes).None? ==> r == Err(DecodeError)
    ensures svc.Ready() && pil.decodeRgb(imageBytes).Some? && pil.decodeGray(trimapBytes).Some? ==>
      var image, trimap := pil.decodeRgb(imageBytes).value, pil.decodeGray(trimapBytes).value;
      var params := map["max_size" := maxSize];
      && (Trimap.ResizeImage(cv, image, maxSize).Err? ==> r == Err(Trimap.ResizeImage(cv, image, maxSize).error))
      && (Trimap.Max(image.h, image.w) <= maxSize ==>
            && (svc.Infer(image, trimap).Err? ==> r == Err(svc.Infer(image, trimap).error))
            && (svc.Infer(image, trimap).Ok? ==>
                  r == Ok(MatteResult(svc.Infer(image, trimap).value, trimap, image, image.Shape(), params))))
      && (Trimap.Max(image.h, image.w) > maxSize && Trimap.ResizeImage(cv, image, maxSize).Ok? ==>
            var target := Trimap.ResizeTarget(image.h, image.w, maxSize).value;
            var small, smallTrimap := cv.resizeRgb(image, target, Linear), cv.resizeGray(trimap, target, Nearest);
            && (svc.Infer(small, smallTrimap).Err? ==> r == Err(svc.Infer(small, smallTrimap).error))
            && (svc.Infer(small, smallTrimap).Ok? ==>
                  r == Ok(MatteResult(cv.resizeGray(svc.Infer(small, smallTrimap).value, image.Shape(), Linear),
                                      trimap, image, image.Shape(), params))))
    ensures r.Ok? ==>
      && svc.Ready() && pil.decodeRgb(imageBytes).Some? && pil.decodeGray(trimapBytes).Some?
      && var image, trimap := pil.decodeRgb(imageBytes).value, pil.decodeGray(trimapBytes).value;
         && r.value.original == image
         && r.value.trimap == trimap
         && r.value.imageSize == image.Shape()
         && r.value.parameters == map["max_size" := maxSize]
         && (Trimap.Max(image.h, image.w) > maxSize ==> r.value.alpha.Valid() && r.value.alpha.Shape() == image.Shape())
  {
    if !svc.Ready() then Err(RuntimeError(NotInitialized))
    else
      match pil.decodeRgb(imageBytes)
      case None => Err(DecodeError)
      case Some(image) =>
        match pil.decodeGray(trimapBytes)
        case None => Err(DecodeError)
        case Some(trimap) =>
          match ResizeImage(cv, image, maxSize)
          case Err(e) => Err(e)
          case Ok((resized, originalSize)) =>
            Trimap.ResizedShapeDiffers(cv, image, maxSize);
            assert Trimap.Max(image.h, image.w) > maxSize ==> image.h > 0 && image.w > 0 by {
              if Trimap.Max(image.h, image.w) > maxSize {
                Trimap.ResizeTargetPositive(image.h, image.w, maxSize);
              }
            }
            match ResizeIfChanged(cv, trimap, image.Shape(), resized.Shape(), Nearest)
            case Err(e) => Err(e)
            case Ok(trimapResized) =>
              match svc.Infer(resized, trimapResized)
              case Err(e) => Err(e)
              case Ok(alpha) =>
                match ResizeIfChanged(cv, alpha, resized.Shape(), originalSize, Linear)
                case Err(e) => Err(e)
                case Ok(alphaOut) => Ok(MatteResult(alphaOut, trimap, image, originalSize, map["max_size" := maxSize]))
  }

  /** Without a downscale, a trimap whose size differs from the image's makes the
      call fail; with one, both are brought to the same working size first. */
  lemma GenerateMatteFromTrimapMismatchFails(svc: Service, pil: Pil, cv: Cv2, imageBytes: seq<Byte>, trimapBytes: seq<Byte>,
                                             maxSize: int)
    requires DecodesRectangular(pil) && ResizesToTarget(cv) && svc.RefusesMismatch()
    requires pil.decodeRgb(imageBytes).Some? && pil.decodeGray(trimapBytes).Some?
    requires var image := pil.decodeRgb(imageBytes).value; Trimap.Max(image.h, image.w) <= maxSize
    requires pil.decodeGray(trimapBytes).value.Shape() != pil.decodeRgb(imageBytes).value.Shape()
    ensures GenerateMatteFromTrimap(svc, pil, cv, imageBytes, trimapBytes, maxSize).Err?
  {
  }
}
