# Segmenter backend, modelled in Dafny

This project models the deterministic core of the Python backend of the
segmenter application. That backend runs SAM2 automatic segmentation and then
alpha matting (ViTMatte or the classical pymatting estimators) on a mask the
user picks. The model covers:

- **Trimap derivation** (`TrimapGenerationService.create_trimap` and the
  ViTMatte service's copy). The mask is binarised at 127, eroded and dilated
  over a kernel given as a set of offsets, and labelled by three in-place
  masked writes on a zeroed array: 0 is sure background, 128 unknown, 255 sure
  foreground.
- **Aspect-preserving downscale sizing** (`resize_image` /
  `_resize_image`). The target side `int(w * max_size / h)` is taken as the
  exact quotient truncated toward zero. The model also has the
  `ZeroDivisionError` of a 0×0 image, and `cv2.resize` refusing an empty
  target.
- **SAM2 segment summaries** (`_process_mask`): bounding box, area and 0/255
  mask image. Also the response of `auto_segment`: one segment per generated
  mask with id i, the colour composite painted in place (later masks
  overwrite earlier ones), the colour map keyed by the `"(r, g, b)"` string,
  and Python's stable sort by decreasing confidence.
- **Configuration lookups**: SAM2 variant to config and checkpoint paths,
  device normalisation, and ViTMatte variant to model name.
- **The matting pipelines**: the model-loaded guard, the algorithm whitelist,
  the shape and channel checks and estimator dispatch of
  `_apply_matting_algorithm`, the conditional resize of the mask,
  resizing back to the original size, and the parameters echoed in the
  response.

Modules, one per source file plus four shared ones:

| module | file | models |
|---|---|---|
| `Wrappers` | wrappers.dfy | Option, Result, and the exceptions that leave the services |
| `Text` | text.dfy | `str.lower()` on ASCII, `str(int)` with its parser, `repr` of an int tuple |
| `Images` | images.dfy | rasters, numpy's `a[sel] = v` on a 2-D array, the OpenCV and PIL calls as opaque functions |
| `Trimap` | trimap.dfy | backend/app/services/trimap.py |
| `Sam2` | sam2.dfy | backend/app/services/sam2.py |
| `ModelConfig` | config.dfy | backend/app/config/models.py |
| `Matting` | matting.dfy | the resize → mask-follows → trimap → resize-back steps shared by both matting services |
| `ViTMatte` | vitmatte.dfy | backend/app/services/vitmatte.py |
| `ClassicalMatting` | classical_matting.dfy | backend/app/services/classical_matting.py |

Foreign calls are parameters:

- `Images.Cv2`: `cv2.resize` and `cv2.getStructuringElement`;
- `Images.Pil`: decoding `Image.open(...).convert(...)`, where None means
  PIL raised;
- `ViTMatte.Matter`: the ViTMatte processor and network, returning the
  exception they raise on error;
- `ClassicalMatting.Estimators`: the pymatting alpha estimators, returning
  the failure message on error;
- `ClassicalMatting.ForegroundEstimator`: `estimate_foreground_ml`, also
  returning the exception it raises;
- the SAM2 mask generator's output and `_generate_colors`' colour list,
  which are inputs of `Sam2.AutoSegment`;
- the environment variables MODEL, DEVICE and VITMATTE_MODEL, as
  `Option<string>` values.

The model assumes two things of these libraries, and the matting pipelines
require both:

- `ResizesToTarget`: a resize to a non-empty size returns a raster of that
  size;
- `DecodesRectangular`: a decoded raster is rectangular.

A third assumption, `Service.RefusesMismatch`, says that the ViTMatte
processor fails on an image and a trimap of different sizes. It is a
hypothesis only of the two lemmas about mismatched inputs.

Confidences are integers in units of 1e-4, the precision at which the service
reports `confidence`, i.e. after `round(..., 4)`.

## Model

| member | source | states |
|---|---|---|
| Trimap.Binarize | backend/app/services/trimap.py:28 | every binarised pixel is 255 exactly when the input pixel is above 127 and 0 exactly when it is not; the shape is kept |
| Trimap.Erode | backend/app/services/trimap.py:37 | `cv2.erode` of the 0/255 mask: a pixel is 255 exactly when every in-bounds neighbour under the kernel is on; the shape is kept |
| Trimap.Dilate | backend/app/services/trimap.py:40 | `cv2.dilate`: a pixel is 255 exactly when some neighbour under the kernel is on; the shape is kept |
| Trimap.EqualTo | backend/app/services/trimap.py:44-46 | the selector `g == v` is true exactly at the pixels equal to v |
| Trimap.Both | backend/app/services/trimap.py:46 | the selector `p & q` is true exactly where both are |
| Trimap.TrimapOf | backend/app/services/trimap.py:43-46 | the trimap grid has the mask's shape; its pixels are characterised by `TrimapPixel` |
| Trimap.CreateTrimap | backend/app/services/trimap.py:13-48 | the fresh array has the mask's shape and, after the zeroing and the three masked writes in source order, holds exactly `TrimapOf` of the mask and the two elliptic kernels |
| Trimap.TrimapFor | backend/app/services/trimap.py:43-48 | the returned trimap is a rectangular raster of the mask's shape |
| Trimap.TrimapPixel | backend/app/services/trimap.py:43-46 | a pixel is 255 when its whole in-bounds erosion neighbourhood is on, otherwise 128 when some pixel of its dilation neighbourhood is on, otherwise 0 |
| Trimap.TrimapValues | backend/app/services/trimap.py:43-46 | the trimap has the mask's shape and every pixel is 0, 128 or 255 |
| Trimap.TrimapRules | backend/app/services/trimap.py:44-46 | for any kernels: eroded 255 gives 255; dilated 255 with eroded 0 gives 128; dilated 0 with eroded 0 gives 0 |
| Trimap.ErosionWithinMaskWithinDilation | backend/app/services/trimap.py:37-40 | with kernels that contain their anchor, eroded ⊆ binarised mask ⊆ dilated, pixel by pixel |
| Trimap.TrimapAgreesWithMask | backend/app/services/trimap.py:37-46 | with anchored kernels a pixel is 0 iff its dilated value is 0; a 255 pixel is above 127 in the input mask and a 0 pixel is not |
| Trimap.ScaledSide | backend/app/services/trimap.py:68-71 | for a short side a ≤ long side b and max_size m ≥ 0, `int(a * m / b)` is the floor of a·m/b and lies in [0, m] |
| Trimap.TruncDiv | backend/app/services/trimap.py:69-71 | `int(a / b)` truncates toward zero: the magnitude is the floor of the magnitudes' quotient, and the result is negative only when the signs differ, and never positive when they do |
| Trimap.ResizeTarget | backend/app/services/trimap.py:62-71 | small images keep their size; it fails exactly for a 0×0 image with max_size < 0 (ZeroDivisionError); when h > w the new height is max_size, otherwise (h == w included) the new width is; the other side is the floor of short·max_size/long, at most max_size |
| Trimap.ResizeImage | backend/app/services/trimap.py:51-74 | an image whose longer side is at most max_size comes back unchanged; the second component is always the input's (h, w); otherwise it succeeds exactly when `ResizeTarget` gives a target with two positive sides, and the image is then `cv2.resize` to that target with linear interpolation; the failures are the `ZeroDivisionError` of the sizing and the error `cv2.resize` raises for an empty target |
| Trimap.ResizeTargetPositive | backend/app/services/trimap.py:68-73 | a resize that succeeds started from an image with two non-zero sides |
| Trimap.ResizedShapeDiffers | backend/app/services/trimap.py:65-74 | the returned image's shape differs from the input's exactly when the longer side exceeded max_size, which is what the callers' shape comparison tests |
| Images.MaskedWrite | backend/app/services/trimap.py:44-46 | numpy's `a[sel] = v` in place: every selected pixel becomes v and every other pixel keeps its value |
| Images.MaskedAssign | backend/app/services/trimap.py:44-46 | the value of `a[sel] = v`: v at every selected pixel, the old value elsewhere, same shape |
| Images.Filled | backend/app/services/trimap.py:43 | `np.zeros_like` and `np.zeros`: every pixel holds the fill value |
| Images.ResizeIfChanged | backend/app/services/vitmatte.py:145-150 | the raster is returned untouched when the shape did not change, otherwise resized to the new shape, which it then has |
| Text.Lower | backend/app/config/models.py:45 | the lower-cased string has the same length, and each character is the ASCII lower case of the input's |
| Text.LowerIdempotent | backend/app/config/models.py:45 | lowering twice is lowering once |
| Text.NatToString | backend/app/services/sam2.py:84 | `str(n)` of a non-negative int is a non-empty run of decimal digits with no leading zero ("0" for 0) |
| Text.DigitsValueOfNatToString | backend/app/services/sam2.py:84 | the digits of `str(n)` denote n |
| Text.ParseNatToString | backend/app/services/sam2.py:84 | reading a number off `str(n) + rest` gives back n and leaves rest, when rest does not start with a digit |
| Text.TupleRepr | backend/app/services/classical_matting.py:44-47 | Python's tuple repr: `()` when empty, `(a,)` with the trailing comma for one entry, `(a, b)` and `(a, b, c)` with the decimal entries separated by ", " |
| Sam2.RowWhere | backend/app/services/sam2.py:118 | the coordinates listed for a row are exactly its set pixels |
| Sam2.Where | backend/app/services/sam2.py:118 | `np.where(mask)` lists exactly the set pixels of the mask |
| Sam2.WhereCard | backend/app/services/sam2.py:118 | `np.where` lists no pixel twice |
| Sam2.WhereCountsSetPixels | backend/app/services/sam2.py:126 | the number of listed coordinates equals the number of set pixels, which is `np.sum(mask)` |
| Sam2.Rows | backend/app/services/sam2.py:119-122 | `coords[0]`: entry i is the row of coordinate i |
| Sam2.Cols | backend/app/services/sam2.py:119-122 | `coords[1]`: entry i is the column of coordinate i |
| Sam2.BoxOf | backend/app/services/sam2.py:119-124 | for an empty list [0, 0, 0, 0]; otherwise every listed coordinate lies in the box, and each edge is a listed row or column |
| Sam2.MinOf | backend/app/services/sam2.py:120-121 | the minimum is an element and at most every element |
| Sam2.MaxOf | backend/app/services/sam2.py:120-121 | the maximum is an element and at least every element |
| Sam2.BoxOfWhere | backend/app/services/sam2.py:119-122 | for a non-empty mask the box contains every set pixel (corners inclusive) and each of its four edges passes through a set pixel |
| Sam2.MaskImage | backend/app/services/sam2.py:129 | the mask image has the mask's shape and is 255 where the mask is set and 0 elsewhere |
| Sam2.ProcessMask | backend/app/services/sam2.py:105-141 | keeps id and confidence; a non-empty mask gets the tight inclusive box over its set pixels, an empty one [0, 0, 0, 0]; area is the number of set pixels; the mask image is the 0/255 image |
| Sam2.ParseColorKeyRoundTrip | backend/app/services/sam2.py:84 | the `"(r, g, b)"` key of a colour reads back as that colour |
| Sam2.ColorKeyInjective | backend/app/services/sam2.py:84 | two colours have the same key exactly when they are equal |
| Sam2.Processed | backend/app/services/sam2.py:70-81 | one segment per generated mask, in generator order, segment i built from mask i with id i and its scores |
| Sam2.Composite | backend/app/services/sam2.py:68 | the composite has the image's shape |
| Sam2.ProcessedIds | backend/app/services/sam2.py:73-76 | before sorting, segment i has id i, so ids follow generator order |
| Sam2.ProcessedStep | backend/app/services/sam2.py:76-81 | one more mask appends exactly its own segment |
| Sam2.CompositeStep | backend/app/services/sam2.py:83 | one more mask paints its colour over its pixels of the composite so far |
| Sam2.ColorMapStep | backend/app/services/sam2.py:84-87 | one more mask sets its colour's key to its id and confidence |
| Sam2.AutoSegment | backend/app/services/sam2.py:35-103 | without a model: the RuntimeError with its message; with no masks: no segments, an empty composite and an empty colour map; otherwise the sorted segments, the composite and the colour map of all masks — the loop keeps segments, array and dict equal to those of the masks seen so far |
| Sam2.LastCover | backend/app/services/sam2.py:83 | the index found covers the pixel and no later mask does, or no mask does |
| Sam2.CompositePixel | backend/app/services/sam2.py:68-83 | each composite pixel has the colour of the last mask in generator order that covers it, or black when none does |
| Sam2.ColorMapKeys | backend/app/services/sam2.py:84-87 | the colour map's keys are exactly the keys of the colours used |
| Sam2.ColorMapEntries | backend/app/services/sam2.py:84-87 | every entry of the colour map names one of the masks by its index and carries that mask's confidence |
| Sam2.ColorMapLastWins | backend/app/services/sam2.py:84-87 | the key of colors[i] maps to the last index j ≥ i with the same colour, with j's confidence: later masks overwrite |
| Sam2.ColorMapDistinct | backend/app/services/sam2.py:84-87 | with pairwise distinct colours, the key of colors[i] maps to segment i and its confidence |
| Sam2.InsertByConfidencePerm | backend/app/services/sam2.py:89 | inserting adds exactly the inserted segment |
| Sam2.InsertByConfidence | backend/app/services/sam2.py:89 | one insertion step of the stable sort: the list grows by exactly one; what it adds is stated by `InsertByConfidencePerm` |
| Sam2.SortByConfidence | backend/app/services/sam2.py:89 | `list.sort` keeps the length; its order and permutation are stated by `SortByConfidenceCorrect` |
| Sam2.InsertAtMost | backend/app/services/sam2.py:89 | inserting keeps an upper bound on the confidences |
| Sam2.InsertTiesAfter | backend/app/services/sam2.py:89 | inserting keeps every equal-confidence segment after a given one in id order |
| Sam2.InsertSorted | backend/app/services/sam2.py:89 | inserting into a list of non-increasing confidence keeps it non-increasing |
| Sam2.InsertTies | backend/app/services/sam2.py:89 | inserting a segment with a larger id than all others keeps equal confidences in increasing id order |
| Sam2.SortByConfidenceCorrect | backend/app/services/sam2.py:89 | the sorted list is a permutation of the input with non-increasing confidence, and when input ids increase, equal confidences keep increasing ids (stability) |
| Sam2.AutoSegmentOrder | backend/app/services/sam2.py:89 | the response's segments are a permutation of the processed ones, by non-increasing confidence, ties in generator order |
| ModelConfig.GetModelPaths | backend/app/config/models.py:32-52 | the variant is the argument, else MODEL, else "tiny", lower-cased; it succeeds exactly for the four variants with that variant's pair, and otherwise fails with the ValueError naming the lower-cased variant |
| ModelConfig.VariantsAreKeys | backend/app/config/models.py:12-29 | the mapping's keys are exactly tiny, small, base_plus and large |
| ModelConfig.VariantPaths | backend/app/config/models.py:12-29 | each of the four variants returns exactly its (config, checkpoint) pair |
| ModelConfig.UnknownVariantRefused | backend/app/config/models.py:47-49 | a variant outside the mapping, after lowering, raises the ValueError and returns no paths |
| ModelConfig.GetModelPathsIgnoresCase | backend/app/config/models.py:45 | "TINY" and "tiny", or any variant and its lower case, give the same result |
| ModelConfig.GetModelPathsDefault | backend/app/config/models.py:42-43 | a None variant behaves as the MODEL value, and as "tiny" when MODEL is unset |
| ModelConfig.VariantsDistinct | backend/app/config/models.py:12-29 | different variants never share a checkpoint or a config |
| ModelConfig.GetDevice | backend/app/config/models.py:55-61 | the device is always cpu, cuda or mps; the lower-cased DEVICE (default cpu) is kept exactly when it is one of those, and any other value becomes cpu |
| ModelConfig.GetDeviceIdempotent | backend/app/config/models.py:57-61 | feeding the chosen device back as DEVICE chooses it again |
| ViTMatte.GetModelName | backend/app/services/vitmatte.py:25-34 | the name is always one of the two mapped names, and it is the base model exactly when the chosen variant is "base" |
| ViTMatte.ChosenVariant | backend/app/services/vitmatte.py:27 | `variant or os.getenv(...)`: a non-empty variant wins as given; None and "" both defer to VITMATTE_MODEL, and then to "small" |
| ViTMatte.GetModelNameFallback | backend/app/services/vitmatte.py:27 | an empty variant behaves as None; None with VITMATTE_MODEL unset gives the small model |
| ViTMatte.GetModelNameCaseSensitive | backend/app/services/vitmatte.py:29-34 | there is no lower-casing: "Base" and "BASE" give the small model |
| ViTMatte.CreateTrimap | backend/app/services/vitmatte.py:50-85 | the service's own copy builds exactly the trimap of `Trimap.CreateTrimap`: same shape, same `TrimapOf` contents |
| ViTMatte.ResizeImage | backend/app/services/vitmatte.py:87-110 | the service's own copy returns exactly what `Trimap.ResizeImage` returns, for every image and max_size |
| Matting.Prepare | backend/app/services/vitmatte.py:143-153 | it succeeds exactly when the image resize does, with that resize's error otherwise; the trimap is derived from the working mask; without a downscale the image and mask are used as decoded; with one, the image is the linear resize to the target, the mask its nearest resize to the same size, and the original had two non-zero sides |
| Matting.Restore | backend/app/services/vitmatte.py:173-180 | matte and trimap are untouched when the working size is the original size, and otherwise resized to the original size, linear for the matte and nearest for the trimap |
| ViTMatte.GenerateMatte | backend/app/services/vitmatte.py:112-202 | without model or processor: the RuntimeError; an undecodable input: a decode error; a failed resize: its error. Without a downscale the result is the network's matte on the image and the mask's trimap, or the network's error. With one, the network runs on the linearly resized image and the trimap of the nearest-resized mask; its matte is scaled back linearly and that trimap with nearest. Success holds exactly when the resize and the network both succeed; original image, `image_size` and the three parameters are echoed |
| ViTMatte.GenerateMatteTrimapLevels | backend/app/services/vitmatte.py:153-187 | without a downscale and with anchored kernels, the returned trimap has the mask's shape, only the values 0, 128 and 255, 255 only inside the binarised mask and 0 only outside it |
| ViTMatte.GenerateMatteMismatchFails | backend/app/services/vitmatte.py:144-160 | when the processor refuses inputs of different sizes, a mask whose size differs from an image that is not downscaled makes the call fail |
| ViTMatte.GenerateMatteFromTrimap | backend/app/services/vitmatte.py:238-316 | the same guard, decode and resize errors. Without a downscale the matte is the network's on the image and the decoded trimap; with one, on both resized to the target (linear, nearest), scaled back linearly. The network's error is passed on. The response carries the decoded trimap at its decoded size, and parameters holding only max_size |
| ViTMatte.GenerateMatteFromTrimapMismatchFails | backend/app/services/vitmatte.py:266-279 | when the processor refuses inputs of different sizes, a trimap whose size differs from an image that is not downscaled makes the call fail |
| ClassicalMatting.ShapePrefix | backend/app/services/classical_matting.py:43 | `shape[:2]` is the first two dimensions, or the whole shape when it has fewer |
| ClassicalMatting.ApplyMattingAlgorithm | backend/app/services/classical_matting.py:29-65 | a shape mismatch raises its ValueError first, then a non-3-channel image raises its ValueError; after both checks each of cf, knn, lbdm and lkm calls exactly its own estimator, any estimator failure and an unsupported name come out as RuntimeError "Matting algorithm … failed: …" |
| ClassicalMatting.GenerateMatte | backend/app/services/classical_matting.py:67-162 | an algorithm outside the four raises ValueError whatever the bytes, before decoding; then decode and resize errors. Without a downscale the alpha is `ApplyMattingAlgorithm` on the image and the mask's trimap: the ShapeMismatch ValueError exactly when the mask's size differs, otherwise the alpha or a RuntimeError. The foreground is `estimate_foreground_ml` of image and alpha, whose error is passed on. With a downscale the same runs on the linearly resized image and the trimap of the nearest-resized mask, where only RuntimeErrors can arise; alpha is scaled back linearly and trimap with nearest, and the foreground stays at the working size. Original image, size, algorithm and the four parameters are echoed |

## Left out

- PNG encoding and decoding, and base64 (section 4 of RFC 4648), in
  `encode_results`, `_encode_results` and `_process_mask`. Rasters stand for
  the encoded images; PIL decoding is an opaque function.
- `_generate_colors` (sam2.py:27-33): the HLS-to-RGB conversion is floating
  point. Its colour list is an input of `Sam2.AutoSegment` of the same length
  as the masks.
- The SAM2 mask generator, model loading (`build_sam2`, `_load_model`,
  `from_pretrained`), torch device moves and inference: opaque functions or
  inputs. A loaded model is a flag (`modelLoaded`) or an `Option`.
- The pymatting estimators, `estimate_foreground_ml` and the ViTMatte
  processor and network: opaque functions that either return a result or an
  error. Which inputs they refuse is not modelled, apart from the
  `RefusesMismatch` hypothesis.
- `/ 255.0` normalisation, `np.clip(alpha, 0, 1)`, `alpha * 255` casts and
  `round(..., 4)`. The estimators and the ViTMatte network are taken to return
  the 0-255 matte directly, and confidences are integers in units of 1e-4.
- `cv2.resize` pixel interpolation and border handling. Only the target size
  and its refusal of an empty size are modelled.
- `cv2.getStructuringElement`: the kernel is whatever `Cv2.ellipse` returns.
  The lemmas that need it assume the kernel contains its anchor. A
  non-positive kernel size makes OpenCV's anchor check raise in the source;
  the model's `ellipse` is total, so that error is not modelled.
- Python's `/` in `resize_image` is floating-point division. The model takes
  `int(a / b)` as the exact quotient truncated toward zero, which agrees with
  the double result as long as the double resolves the quotient; that holds
  for any real image side, but is not proved.
- `time.time()` and `processing_time`, and all `print` logging, including the
  warning of `get_device`.
- `str.lower()` beyond ASCII letters.
- The SAM2 image decode and its shape (sam2.py:44-45). `Sam2.AutoSegment`
  receives the image's height and width, and requires every generated mask to
  have that shape, as numpy's boolean indexing does.
- backend/app/api/routes.py and backend/app/main.py: FastAPI routing and
  setup with no logic of their own.
- The services' constructors (`__init__`). Both call `get_device`, which
  `ModelConfig.GetDevice` models, and store the result in `self.device`. The
  classical service never reads its device, and ViTMatte's device moves are
  left out above. The ViTMatte model and processor are `ViTMatte.Service`.
  The classical service's `trimap_service` is the `Trimap` module, and its
  `valid_algorithms` is `ClassicalMatting.ValidAlgorithms`.
- Sam2.Segment: the echoed `stability_score` and `predicted_iou`
  (sam2.py:77-80) are reported unrounded by the source. The model carries them
  as the same 1e-4 integers as `confidence`, i.e. quantised.
- ClassicalMatting.GenerateMatte: the foreground is returned at the working
  size, as the source does. Its shape is not stated, because it comes from the
  opaque estimator.
- `Sam2.ColorKey` and `Sam2.ColorMapOf` carry no contract of their own. Their
  meaning is stated by `ParseColorKeyRoundTrip`, `ColorKeyInjective`,
  `ColorMapKeys`, `ColorMapEntries` and `ColorMapLastWins`.
