/**
 * One inference pass over a letterboxed frame: the canvas pixels are packed into
 * the input tensor, the loaded model is run on it, its output is decoded into
 * candidates, suppression keeps the best of each overlapping same-class group,
 * and every survivor becomes a Detection in source-image pixels.
 */
module Pipeline {
  import opened Wrappers
  import opened Reals
  import opened Classes
  import opened Overlap
  import opened Packing
  import opened Decoding
  import opened Suppression
  import Letterbox

  /** Side of the square model input, in pixels. */
  const InputSize: nat := 1280

  /**
   * A reported detection. The program's detection id is a clock reading followed
   * by the detection's position in the list; only the position is kept.
   */
  datatype Detection = Detection(
    index: nat,
    classId: ClassId,
    className: string,
    confidence: real,
    x: real,
    y: real,
    width: real,
    height: real)

  /**
   * The detection built from a survivor at position `index`: the top-left corner
   * is clamped at 0 and the sizes, taken from the unclamped corners, are clamped
   * at 0. There is no clamp against the image's right or bottom edge.
   */
  function ToDetection(c: Candidate, index: nat): (d: Detection)
    ensures d.index == index && d.classId == c.classId && d.confidence == c.confidence
    ensures d.className == ClassNames[c.classId]
    ensures d.x >= 0.0 && d.y >= 0.0 && d.width >= 0.0 && d.height >= 0.0
    ensures c.box.x1 >= 0.0 ==> d.x == c.box.x1
    ensures c.box.x1 < 0.0 ==> d.x == 0.0
    ensures c.box.y1 >= 0.0 ==> d.y == c.box.y1
    ensures c.box.y1 < 0.0 ==> d.y == 0.0
    ensures c.box.x1 <= c.box.x2 ==> d.width == c.box.x2 - c.box.x1
    ensures c.box.y1 <= c.box.y2 ==> d.height == c.box.y2 - c.box.y1
    ensures c.box.x2 < c.box.x1 ==> d.width == 0.0
    ensures c.box.y2 < c.box.y1 ==> d.height == 0.0
  {
    Detection(
      index,
      c.classId,
      ClassName(c.classId),
      c.confidence,
      Max(0.0, c.box.x1),
      Max(0.0, c.box.y1),
      Max(0.0, c.box.x2 - c.box.x1),
      Max(0.0, c.box.y2 - c.box.y1))
  }

  /** One detection per survivor, in the survivors' order, numbered by position. */
  function Assemble(survivors: seq<Candidate>): (r: seq<Detection>)
    ensures |r| == |survivors|
    ensures forall k :: 0 <= k < |r| ==> r[k] == ToDetection(survivors[k], k)
    ensures forall k :: 0 <= k < |r| ==>
      r[k].index == k && r[k].classId == survivors[k].classId
      && r[k].confidence == survivors[k].confidence
      && r[k].className == ClassNames[survivors[k].classId]
      && r[k].x >= 0.0 && r[k].y >= 0.0 && r[k].width >= 0.0 && r[k].height >= 0.0
  {
    seq(|survivors|, k requires 0 <= k < |survivors| => ToDetection(survivors[k], k))
  }

  /**
   * A well-formed box inside the positive quadrant is recovered exactly from its
   * detection: corner plus size gives back the opposite corner.
   */
  lemma DetectionBoxRoundTrip(c: Candidate, index: nat)
    requires WellFormed(c.box) && c.box.x1 >= 0.0 && c.box.y1 >= 0.0
    ensures var d := ToDetection(c, index);
      Candidate(Box(d.x, d.y, d.x + d.width, d.y + d.height), d.confidence, d.classId) == c
  {
  }

  /**
   * A box that starts left of the image keeps its full width after its left edge
   * is clamped to 0, so its reported right edge lies `-x1` pixels beyond `x2`.
   */
  lemma ClampShiftsRightEdge(c: Candidate, index: nat)
    requires c.box.x1 < 0.0 <= c.box.x2
    ensures var d := ToDetection(c, index);
      d.x == 0.0 && d.x + d.width == c.box.x2 - c.box.x1 && d.x + d.width > c.box.x2
  {
  }

  /** The detections of one frame, given the model output for it. */
  function Detect(out: RawOutput, width: int, height: int, confidenceThreshold: real, iouThreshold: real): seq<Detection>
    requires WellShaped(out) && Letterbox.NonEmptySource(width, height)
  {
    Assemble(Nms(Decoded(out, width, height, confidenceThreshold), iouThreshold))
  }

  /**
   * At most one detection per anchor; every detection meets the confidence
   * threshold and is non-negative; confidences never increase along the list.
   */
  lemma DetectBounds(out: RawOutput, width: int, height: int, confidenceThreshold: real, iouThreshold: real)
    requires WellShaped(out) && Letterbox.NonEmptySource(width, height)
    ensures var r := Detect(out, width, height, confidenceThreshold, iouThreshold);
      |r| <= out.anchors
      && (forall k :: 0 <= k < |r| ==> r[k].confidence >= confidenceThreshold && r[k].confidence >= 0.0)
      && (forall i, j :: 0 <= i < j < |r| ==> r[i].confidence >= r[j].confidence)
  {
    var decoded := Decoded(out, width, height, confidenceThreshold);
    DecodedAboveThreshold(out, width, height, confidenceThreshold);
    NmsSubMultiset(decoded, iouThreshold);
    NmsSorted(decoded, iouThreshold);
  }

  /** The most confident decoded candidate always becomes the first detection. */
  lemma DetectKeepsBest(out: RawOutput, width: int, height: int, confidenceThreshold: real, iouThreshold: real)
    requires WellShaped(out) && Letterbox.NonEmptySource(width, height)
    requires |Decoded(out, width, height, confidenceThreshold)| > 0
    ensures var r := Detect(out, width, height, confidenceThreshold, iouThreshold);
      |r| > 0 && forall c :: c in Decoded(out, width, height, confidenceThreshold) ==> c.confidence <= r[0].confidence
  {
    NmsKeepsBest(Decoded(out, width, height, confidenceThreshold), iouThreshold);
  }

  /** Whether a model session is loaded. */
  predicate IsModelLoaded<T>(session: Option<T>)
  {
    session.Some?
  }

  datatype InferenceError = ModelNotLoaded | RunFailed

  /** The model: input tensor to output buffer, or None when the run fails. */
  type Executor = seq<real> -> Option<RawOutput>

  /**
   * One inference pass. Fails with `ModelNotLoaded` before doing any work when no
   * session is loaded and with `RunFailed` when the model run fails; otherwise
   * the detections are those of the model's output for the packed frame.
   * `frame` is the letterboxed canvas, `InputSize` square, as RGBA bytes.
   */
  method RunInference(
    session: Option<Executor>, frame: array<Byte>, originalWidth: int, originalHeight: int,
    confidenceThreshold: real, iouThreshold: real)
    returns (r: Result<seq<Detection>, InferenceError>)
    requires frame.Length == 4 * (InputSize * InputSize)
    requires Letterbox.NonEmptySource(originalWidth, originalHeight)
    requires forall t :: session.Some? && session.value(t).Some? ==> WellShaped(session.value(t).value)
    ensures !IsModelLoaded(session) <==> r == Err(ModelNotLoaded)
    ensures IsModelLoaded(session) ==>
      match session.value(Planar(frame[..], InputSize * InputSize))
      case None => r == Err(RunFailed)
      case Some(out) => r == Ok(Detect(out, originalWidth, originalHeight, confidenceThreshold, iouThreshold))
  {
    if session.None? {
      return Err(ModelNotLoaded);
    }
    var run := session.value;
    var tensor := PackTensor(frame, InputSize);
    var output := run(tensor[..]);
    if output.None? {
      return Err(RunFailed);
    }
    var out := output.value;
    var candidates := DecodeOutput(out, originalWidth, originalHeight, confidenceThreshold);
    var detections := new Candidate[|candidates|](k requires 0 <= k < |candidates| => candidates[k]);
    assert detections[..] == candidates;
    var survivors := NmsInPlace(detections, iouThreshold);
    assert survivors == Nms(candidates, iouThreshold);
    r := Ok(Assemble(survivors));
  }
}
