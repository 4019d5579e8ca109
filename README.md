# Detection post-processing of the safety-equipment detector, in Dafny

The detector runs a YOLOv8 model in the browser. It recognises seven classes of
safety equipment (oxygen and nitrogen tanks, first-aid boxes, fire alarms,
safety switch panels, emergency phones and fire extinguishers). This project
models the part of `src/lib/onnxInference.ts` that turns a camera frame into a
list of detections, and proves what that part promises:

- **Letterbox geometry** (module `Letterbox`). The source is scaled by
  `min(T/w, T/h)`. Its scaled sides are rounded to whole pixels with
  `Math.round`, modelled as `Floor(x + 0.5)`. It is centred in the square
  `T` x `T` input.
- **Tensor packing** (module `Packing`). A nested loop over an array of RGBA
  bytes writes a planar red/green/blue tensor scaled to [0, 1]. The model
  keeps the arrays and the loop.
- **Output decoding** (module `Decoding`). The output is feature-major: feature
  `f` of anchor `i` sits at `f * N + i`.
  - For each anchor the decoder scans the seven class scores, keeping the first
    maximum, with the running maximum starting at 0.
  - It applies the confidence threshold.
  - It converts the box from centre form to corner form.
  - It maps the box back to source pixels with `scale = 1280 / max(w, h)` and
    unrounded offsets.
- **Overlap** (module `Overlap`). This is the intersection over union with its
  `1e-6` guard term.
- **Suppression** (module `Suppression`). This is per-class greedy
  non-maximum suppression.
  - It sorts the array in place by descending confidence.
  - It keeps a `used` set of suppressed positions.
  - It collects the survivors.
- **Assembly and orchestration** (module `Pipeline`). Each survivor becomes a
  `Detection`: its corner is clamped at 0 and its class name is looked up.
  `RunInference` chains the stages and fails when no model is loaded or when
  the model run fails.
- **Class table and colours** (module `Classes`).

Coordinates and scores are Dafny `real`s, so the arithmetic is exact. Pixel
data is an array of bytes. The model itself is an opaque function from the
input tensor to an optional output buffer: `None` stands for a failed run.

The model states four things the source's comments do not:

- **Both sides can fill the input.** "The longer side scales to exactly `T`"
  holds, but after rounding both sides can equal `T` for a non-square source:
  2560 x 2559 gives 1280 x 1280 (`Letterbox.BothSidesFillTarget`).
- **The two offset formulas differ.** The decoder computes its offsets without
  rounding, unlike preprocessing. The scales agree, and the offsets differ by
  at most a quarter of an input pixel (`Decoding.DecoderMatchesLetterbox`).
- **A box's IoU with itself is below 1.** It is `area / (area + 1e-6)`
  (`Overlap.IoUSelf`).
- **A threshold of 0 lets every anchor through.** The running maximum starts
  at 0 and the test is `>=`, so at threshold 0 an anchor whose scores are all
  negative still yields a candidate of class 0 (OxygenTank) with confidence 0
  (`Decoding.AnchorYieldsIff`). `Decoding.ThresholdBoundary` therefore holds
  only for positive thresholds.

## Model

| member | source | states |
|---|---|---|
| Classes.ClassName | src/lib/onnxInference.ts:6-14 | the name of every class id is one of the seven class names and has an entry in the colour table |
| Classes.ClassNamesDistinct | src/lib/onnxInference.ts:6-14 | the class table has exactly seven entries and no name occurs twice |
| Classes.ClassColor | src/lib/onnxInference.ts:47-49 | every class name has an entry in the colour table and gets that entry, which is non-empty, so the `#00f0ff` fallback is never taken |
| Classes.ClassColorsDistinct | src/lib/onnxInference.ts:37-45 | two different classes are always drawn in different colours |
| Classes.FallbackIsClassZeroColor | src/lib/onnxInference.ts:38-48 | the fallback colour is the colour of class 0 (OxygenTank), so the two cannot be told apart |
| Letterbox.Round | src/lib/onnxInference.ts:95-96 | the rounded value is the integer within one half of the input, halves rounding up |
| Letterbox.ScaledSideFits | src/lib/onnxInference.ts:94-96 | scaling by `min(T/side, T/other)` is positive, never overshoots `T`, and lands exactly on `T` for the side that is at least as long |
| Letterbox.FitScale | src/lib/onnxInference.ts:94 | the scale is positive, fits both sides within `T`, and brings the side that is at least as long exactly to `T` |
| Letterbox.FitScaleIsMin | src/lib/onnxInference.ts:94 | the scale is `Math.min(T/w, T/h)`; when one side is 0 its ratio is `Infinity` and the scale is the other side's ratio |
| Letterbox.Fit | src/lib/onnxInference.ts:94-100 | the scale is positive and both unrounded scaled sides fit in `T`; each rounded side is the unrounded scaled side rounded to the nearest integer, halves up, and lies in [0, T]; both offsets are non-negative; offset, scaled side and offset add up to `T` on each axis; the longer side fills `T` with offset 0 |
| Letterbox.FitInvariant | src/lib/onnxInference.ts:94-100 | both scaled sides are at most `T` and at least one equals `T` |
| Letterbox.BothSidesFillTarget | src/lib/onnxInference.ts:95-96 | a 2560 x 2559 source scales to 1280 x 1280: rounding can make both sides fill the input |
| Letterbox.FitLandscapeFrame | src/lib/onnxInference.ts:94-100 | a 640 x 480 frame scales by 2 to 1280 x 960 and is padded by 160 above and below |
| Packing.Normalize | src/lib/onnxInference.ts:121-123 | a byte divided by 255 lies in [0, 1], is 0 exactly for byte 0 and is 1 exactly for byte 255 |
| Packing.PlanarAt | src/lib/onnxInference.ts:116-124 | the tensor has `3 * T * T` entries, and entry `c * T * T + p` is byte `4 * p + c` divided by 255, for c in {0, 1, 2} |
| Packing.PackPixelStep | src/lib/onnxInference.ts:121-123 | writing the three channels of one pixel completes that pixel and leaves every earlier pixel intact |
| Packing.PlanarFromPlanes | src/lib/onnxInference.ts:116-125 | a buffer in which every pixel's three channels sit at their plane offsets is the planar tensor |
| Packing.PlanarInUnitRange | src/lib/onnxInference.ts:121-123 | every tensor entry lies in [0, 1] |
| Packing.PlanarIgnoresAlpha | src/lib/onnxInference.ts:118-123 | frames that differ only in alpha bytes pack to the same tensor: alpha is never read |
| Packing.RowMajorIndex | src/lib/onnxInference.ts:116-119 | every (row, column) pair of the image has a pixel index below `T * T` |
| Packing.RowMajorUnique | src/lib/onnxInference.ts:116-119 | distinct (row, column) pairs get distinct pixel indices, so no index is written twice |
| Packing.RowMajorCovers | src/lib/onnxInference.ts:116-119 | every pixel index below `T * T` is reached by the row `p / T` and column `p % T`, so every index is written |
| Packing.PackTensor | src/lib/onnxInference.ts:113-126 | the nested row/column loop fills a fresh array of length `3 * T * T` with exactly the planar tensor of the byte array |
| Overlap.Intersection | src/lib/onnxInference.ts:139-144 | the intersection area, with each axis clamped at 0, is never negative |
| Overlap.IoUSymmetric | src/lib/onnxInference.ts:138-150 | IoU and its comparison against a threshold do not depend on the order of the two boxes |
| Overlap.IntersectionBounded | src/lib/onnxInference.ts:139-146 | for well-formed boxes, the intersection is at most the area of either box |
| Overlap.IoUBounds | src/lib/onnxInference.ts:138-150 | for well-formed boxes the divisor is positive and the IoU lies in [0, 1) |
| Overlap.IoUZeroIffDisjoint | src/lib/onnxInference.ts:139-149 | for well-formed boxes the IoU is 0 exactly when the boxes share no area |
| Overlap.IoUSelf | src/lib/onnxInference.ts:145-149 | a box's IoU with itself is `area / (area + 1e-6)`, which is below 1 |
| Overlap.IoUExceedsWellFormed | src/lib/onnxInference.ts:147-149 | for well-formed boxes, comparing the IoU with the threshold is an ordinary comparison, with no division by zero |
| Overlap.DisjointNeverExceeds | src/lib/onnxInference.ts:144-149 | boxes that share no area never exceed a non-negative threshold |
| Overlap.OffsetSquaresOverlap | src/lib/onnxInference.ts:138-150 | 100 x 100 squares offset by 10 intersect in 8100, have an IoU between 0.68 and 0.69, and exceed the default threshold 0.45 |
| Decoding.FirstMax | src/lib/onnxInference.ts:220-229 | the chosen confidence is non-negative and at least every score. With no positive score the result is class 0 with confidence 0. Otherwise the chosen class is the lowest index attaining the maximum |
| Decoding.FirstMaxUnique | src/lib/onnxInference.ts:220-229 | the characterisation above determines the scan result uniquely |
| Decoding.ScanClasses | src/lib/onnxInference.ts:220-229 | the running-maximum loop with strict `>` returns the first maximum of the anchor's class scores |
| Decoding.Scale | src/lib/onnxInference.ts:233 | the decoder's scale `1280 / max(w, h)` is positive whenever one side is positive |
| Decoding.ToSourceToModel | src/lib/onnxInference.ts:237-240 | mapping a coordinate to source pixels and back with `p * scale + offset` is the identity, in both directions |
| Decoding.SourceOrder | src/lib/onnxInference.ts:237-240 | mapping to source pixels preserves the order of coordinates |
| Decoding.SourceBox | src/lib/onnxInference.ts:232-240 | mapping each corner of the source box back to the model input gives `cx -/+ w/2` and `cy -/+ h/2`; the box is well-formed exactly when `w` and `h` are non-negative |
| Decoding.SourceBoxLandscapeFrame | src/lib/onnxInference.ts:232-240 | for a 640 x 480 source the scale is 2 and the offsets are 0 and 160, and (640, 640, 100, 100) maps to (295, 215, 345, 265) |
| Decoding.ZeroWidthSource | src/lib/onnxInference.ts:94-100 | a 0 x 480 source stays finite: scale 8/3, width 0 centred at offset 640, height filling the input, in preprocessing and in the decoder |
| Decoding.DecoderMatchesLetterbox | src/lib/onnxInference.ts:233-235 | the decoder's scale equals the preprocessing scale, and each decoder offset is within 1/4 pixel of the rounded preprocessing offset |
| Decoding.DecodeAnchor | src/lib/onnxInference.ts:214-247 | reading the anchor's box and scores from the flat buffer yields exactly the anchor's candidate |
| Decoding.AnchorYieldsIff | src/lib/onnxInference.ts:220-247 | an anchor yields a candidate exactly when the first maximum is at least the threshold. The candidate carries that class and confidence and the mapped-back box |
| Decoding.Emitted | src/lib/onnxInference.ts:231-247 | an anchor contributes at most one candidate, and exactly the one it yields |
| Decoding.CollectLength | src/lib/onnxInference.ts:211-248 | collecting the anchors' results gives at most one candidate per anchor |
| Decoding.CollectPrefix | src/lib/onnxInference.ts:211-248 | the candidates of the first anchors are a prefix of all candidates, so the output is in anchor order |
| Decoding.CollectMembership | src/lib/onnxInference.ts:211-248 | a candidate is collected exactly when some anchor yields it |
| Decoding.DecodedMembership | src/lib/onnxInference.ts:211-248 | a candidate is decoded exactly when some anchor yields it |
| Decoding.DecodedAboveThreshold | src/lib/onnxInference.ts:211-248 | there are at most as many candidates as anchors, and every candidate's confidence is at least the threshold and non-negative |
| Decoding.ThresholdBoundary | src/lib/onnxInference.ts:231 | a single-anchor buffer scoring just below the threshold yields nothing, and one scoring just above yields that one candidate |
| Decoding.DecodeOutput | src/lib/onnxInference.ts:211-248 | the loop over the anchors collects exactly the decoded candidates, in anchor order |
| Suppression.Insert | src/lib/onnxInference.ts:157 | inserting adds the candidate and keeps every other candidate |
| Suppression.SortByConfidence | src/lib/onnxInference.ts:157 | sorting keeps the length and is a permutation of its input |
| Suppression.WithConfidenceMembers | src/lib/onnxInference.ts:157 | filtering by a confidence value keeps exactly the candidates with that confidence |
| Suppression.WithConfidenceAppend | src/lib/onnxInference.ts:157 | filtering by confidence distributes over concatenation |
| Suppression.InsertStable | src/lib/onnxInference.ts:157 | an inserted candidate lands after every candidate of its own confidence, and the order among each confidence is otherwise unchanged |
| Suppression.SortStable | src/lib/onnxInference.ts:157 | the sort is stable: for every confidence value, the candidates carrying it appear in the same order as in the input |
| Suppression.StableTie | src/lib/onnxInference.ts:157 | `[a(0.5), b(0.9), c(0.5)]` sorts to `[b, a, c]`: equal confidences keep their input order |
| Suppression.InsertMembers | src/lib/onnxInference.ts:157 | an insertion contains nothing but the old members and the new candidate |
| Suppression.InsertSorted | src/lib/onnxInference.ts:157 | inserting into a sequence sorted by descending confidence keeps it sorted |
| Suppression.SortSorted | src/lib/onnxInference.ts:157 | the sorted sequence has non-increasing confidences |
| Suppression.SortOfSorted | src/lib/onnxInference.ts:157 | sorting a sequence that is already sorted leaves it unchanged, so sorting twice equals sorting once |
| Suppression.SortPairSwaps | src/lib/onnxInference.ts:157 | of two candidates, the more confident one is placed first |
| Suppression.SortInPlace | src/lib/onnxInference.ts:157 | the in-place sort leaves the array holding the stable descending sort of its old contents |
| Suppression.Survivors | src/lib/onnxInference.ts:159-177 | among the first `k` positions there are at most `k` survivors |
| Suppression.SurvivorsSubsequence | src/lib/onnxInference.ts:162-177 | the survivors are the kept candidates at strictly increasing positions, and every kept position is among them: the output is a subsequence of the sorted input |
| Suppression.KeptIffNotSuppressed | src/lib/onnxInference.ts:162-174 | a candidate is kept exactly when no earlier kept candidate suppresses it |
| Suppression.SuppressedBeforeStep | src/lib/onnxInference.ts:167-175 | when the walk passes position `i`, the suppressed set grows by exactly the suppressions of `i`, and only if `i` is kept |
| Suppression.UsedIffSuppressed | src/lib/onnxInference.ts:160-177 | after `i` steps, the `used` set holds exactly the valid positions that a kept candidate before `i` suppresses |
| Suppression.UsedIffNotKept | src/lib/onnxInference.ts:163 | when the walk reaches `i`, `i` is in `used` exactly when candidate `i` is not kept |
| Suppression.MarkOverlapping | src/lib/onnxInference.ts:167-176 | the inner loop adds to `used` exactly the later positions of the same class whose overlap exceeds the threshold |
| Suppression.WalkStep | src/lib/onnxInference.ts:162-177 | one step of the outer loop: a kept candidate is pushed and marks its suppressions; a used one changes nothing |
| Suppression.NmsInPlace | src/lib/onnxInference.ts:152-180 | the array ends up sorted by descending confidence, and the returned list is exactly the survivors of the greedy walk over it |
| Suppression.NmsPairwise | src/lib/onnxInference.ts:167-175 | no survivor suppresses a later survivor: no two survivors of one class overlap by more than the threshold |
| Suppression.NmsDroppedHasWitness | src/lib/onnxInference.ts:163-174 | every dropped candidate has an earlier survivor in the output, of its own class, whose overlap with it exceeds the threshold |
| Suppression.CrossClassNeverSuppresses | src/lib/onnxInference.ts:171 | candidates of different classes never suppress each other |
| Suppression.CrossClassBothSurvive | src/lib/onnxInference.ts:171 | two candidates with identical boxes but different classes both survive |
| Suppression.NmsSorted | src/lib/onnxInference.ts:156-180 | the output confidences are non-increasing |
| Suppression.NmsKeepsBest | src/lib/onnxInference.ts:162-165 | for a non-empty input the output is non-empty, and its head is the first candidate after sorting, with a confidence at least every input's |
| Suppression.SurvivorsSubMultiset | src/lib/onnxInference.ts:165 | the survivors among the first `k` are a sub-multiset of those `k` candidates |
| Suppression.NmsSubMultiset | src/lib/onnxInference.ts:152-180 | the output is no longer than the input, is a sub-multiset of it and holds only input candidates: no candidate is added, duplicated or altered |
| Suppression.SurvivorsOfQuiet | src/lib/onnxInference.ts:162-177 | when nothing suppresses anything later, every candidate survives |
| Suppression.NmsIdempotent | src/lib/onnxInference.ts:152-180 | suppressing the output again returns it unchanged |
| Suppression.PairSuppressed | src/lib/onnxInference.ts:162-177 | of two candidates where the more confident suppresses the other, only the more confident survives |
| Suppression.SameClassOverlapSuppressed | src/lib/onnxInference.ts:152-180 | boxes (0,0,100,100) at 0.9 and (10,10,110,110) at 0.8 of one class: only the 0.9 box survives, in either input order |
| Pipeline.ToDetection | src/lib/onnxInference.ts:255-265 | a detection carries its position, class id, confidence and class name. Its corner is the box corner clamped at 0. Its width is `x2 - x1` whenever `x1 <= x2` and 0 otherwise, and its height is `y2 - y1` whenever `y1 <= y2` and 0 otherwise, each axis on its own. All four are non-negative |
| Pipeline.Assemble | src/lib/onnxInference.ts:255-265 | there is one detection per survivor, in order: detection `k` is the survivor `k` converted with its corner and sizes clamped at 0, numbered `k`, with class, confidence and name carried over |
| Pipeline.DetectionBoxRoundTrip | src/lib/onnxInference.ts:260-263 | a well-formed box with a non-negative corner is recovered exactly from its detection's corner and size |
| Pipeline.ClampShiftsRightEdge | src/lib/onnxInference.ts:260-262 | a box starting left of the image keeps its full width after clamping, so its reported right edge moves beyond `x2` |
| Pipeline.DetectBounds | src/lib/onnxInference.ts:251-265 | there is at most one detection per anchor; every detection meets the confidence threshold and is non-negative; confidences never increase |
| Pipeline.DetectKeepsBest | src/lib/onnxInference.ts:251-265 | when anything is decoded, the first detection is at least as confident as every decoded candidate |
| Pipeline.RunInference | src/lib/onnxInference.ts:182-272 | it fails with `ModelNotLoaded` exactly when no session is loaded, and with `RunFailed` when the run fails; otherwise it returns the assembled survivors of the decoded output of the packed frame |

## Left out

- Canvas work is left out. This covers creating the canvas, the grey fill, `drawImage` resampling and `getImageData`. These are browser APIs, so the model starts from the RGBA bytes of the letterboxed canvas. The geometry that positions the drawing is modelled by `Letterbox.Fit`.
- Loading the model (`loadModel`, `isModelLoaded`'s module variable) and ONNX Runtime's `session.run` are left out. They are foreign library calls. The session is a parameter: `None` when no model is loaded, otherwise a function from the input tensor to an optional output buffer.
- Clock reads are left out: `performance.now()` timings, the `Date.now()` part of each detection id and the `new Date()` timestamp. Only the index part of the id is kept (`Detection.index`).
- Float32 and IEEE-754 double rounding are left out. All arithmetic is on exact reals.
- Pipeline.RunInference: it requires no negative source side and at least one positive side, and so do `Letterbox.Fit` and the decoder geometry (`Decoding.Scale`, `Decoding.Offset`, `Decoding.SourceBox`). One zero side is handled and stays finite (`Decoding.ZeroWidthSource`). When both sides are 0, the source computes `0 * Infinity`, which gives NaN sizes and coordinates that exact reals cannot represent.
- Pipeline.RunInference: it requires the model output to have at least 11 features and exactly `features * anchors` values. The source reads `dims[2]` and `CLASS_NAMES.length` and checks neither.
- The sort algorithm of the JavaScript engine is not modelled. It is stable (`Suppression.SortStable`), so the result is the unique stable sort by descending confidence, which the model defines as an insertion sort and writes back into the array.
- IEEE division by zero is not modelled as a value: `Overlap.IoU` is defined only for a non-zero divisor. The divisor can be zero only for malformed boxes, and there `Overlap.IoUExceeds` follows JavaScript's comparison: a positive intersection over zero is `Infinity`, which exceeds every threshold; a zero intersection over zero is `NaN`, which exceeds none.
- The React pages and components are left out: the dashboard polling loop, the canvas overlay drawing, the metrics and log panels, authentication and routing. They are UI glue outside this module.
