/**
 * Decoding of the raw detection-head output into candidate boxes in source-image
 * pixels: per anchor, the first best-scoring class, the confidence threshold, the
 * centre-to-corner conversion and the inverse of the letterbox placement.
 */
module Decoding {
  import opened Wrappers
  import opened Classes
  import opened Reals
  import opened Overlap
  import Letterbox

  /** Side of the square model input that the decoder assumes, independently of preprocessing. */
  const ModelSize: real := 1280.0

  /** The output buffer with its `features` x `anchors` shape; feature `f` of anchor `i` is at `f * anchors + i`. */
  datatype RawOutput = RawOutput(data: seq<real>, features: nat, anchors: nat)

  /**
   * The buffer matches its shape and holds the four box rows followed by at least
   * one row per class. The decoder reads the class count from the class table
   * rather than from the shape, so nothing checks this at run time.
   */
  predicate WellShaped(out: RawOutput)
  {
    out.features >= 4 + NumClasses && |out.data| == out.features * out.anchors
  }

  /** A surviving anchor: its box in source pixels, its best class score and that class. */
  datatype Candidate = Candidate(box: Box, confidence: real, classId: ClassId)

  /** The running best of a class scan. */
  datatype Best = Best(classId: nat, confidence: real)

  lemma FeatureIndexInRange(f: nat, i: nat, features: nat, anchors: nat)
    requires f < features && i < anchors
    ensures f * anchors + i < features * anchors
  {
    var rest := features - (f + 1);
    assert features * anchors == f * anchors + anchors + rest * anchors;
    assert rest * anchors >= 0;
  }

  /** Feature `f` of anchor `i`. */
  function Feature(out: RawOutput, f: nat, i: nat): real
    requires WellShaped(out) && f < out.features && i < out.anchors
  {
    FeatureIndexInRange(f, i, out.features, out.anchors);
    out.data[f * out.anchors + i]
  }

  /** The class scores of anchor `i`, in class-id order. */
  function ClassScores(out: RawOutput, i: nat): (scores: seq<real>)
    requires WellShaped(out) && i < out.anchors
    ensures |scores| == NumClasses
    ensures forall c :: 0 <= c < NumClasses ==> scores[c] == Feature(out, 4 + c, i)
  {
    seq(NumClasses, c requires 0 <= c < NumClasses => Feature(out, 4 + c, i))
  }

  /**
   * The result of scanning `scores` from first to last, starting from class 0 at
   * confidence 0 and moving on only at a strictly larger score: the lowest class
   * attaining the maximum score, or class 0 at confidence 0 when no score is positive.
   */
  function FirstMax(scores: seq<real>): (b: Best)
    ensures b.confidence >= 0.0
    ensures forall c :: 0 <= c < |scores| ==> scores[c] <= b.confidence
    ensures b.confidence == 0.0 ==> b.classId == 0
    ensures b.confidence > 0.0 ==>
      b.classId < |scores| && scores[b.classId] == b.confidence
      && forall c :: 0 <= c < b.classId ==> scores[c] < b.confidence
  {
    if |scores| == 0 then Best(0, 0.0)
    else
      var prev := FirstMax(scores[..|scores| - 1]);
      if scores[|scores| - 1] > prev.confidence then Best(|scores| - 1, scores[|scores| - 1]) else prev
  }

  /** The best class is fully determined: no other pair of class and confidence satisfies the scan's contract. */
  lemma FirstMaxUnique(scores: seq<real>, b: Best)
    requires b.confidence >= 0.0
    requires forall c :: 0 <= c < |scores| ==> scores[c] <= b.confidence
    requires b.confidence == 0.0 ==> b.classId == 0
    requires b.confidence > 0.0 ==>
      b.classId < |scores| && scores[b.classId] == b.confidence
      && forall c :: 0 <= c < b.classId ==> scores[c] < b.confidence
    ensures b == FirstMax(scores)
  {
    var m := FirstMax(scores);
    if b.confidence > 0.0 {
      assert m.confidence >= b.confidence;
      assert m.confidence > 0.0;
      assert b.confidence >= m.confidence;
      assert !(b.classId < m.classId) && !(m.classId < b.classId);
    }
  }

  /** The decoder's scale: the model side over the longer source side. */
  function Scale(width: int, height: int): (s: real)
    requires Letterbox.NonEmptySource(width, height)
    ensures s > 0.0
  {
    ModelSize / Max(width as real, height as real)
  }

  /** The decoder's padding before a source side of length `side`, left unrounded. */
  function Offset(side: int, width: int, height: int): real
    requires Letterbox.NonEmptySource(width, height)
  {
    (ModelSize - side as real * Scale(width, height)) / 2.0
  }

  /** Model-input coordinate to source coordinate along an axis padded by `offset`. */
  function ToSource(p: real, offset: real, scale: real): real
    requires scale > 0.0
  {
    (p - offset) / scale
  }

  /** Source coordinate to model-input coordinate, the placement the decoder assumes. */
  function ToModel(q: real, offset: real, scale: real): real
  {
    q * scale + offset
  }

  /** The two coordinate maps are inverse to each other in both directions. */
  lemma ToSourceToModel(p: real, q: real, offset: real, scale: real)
    requires scale > 0.0
    ensures ToModel(ToSource(p, offset, scale), offset, scale) == p
    ensures ToSource(ToModel(q, offset, scale), offset, scale) == q
  {
    assert (p - offset) / scale * scale == p - offset;
    assert (q * scale + offset - offset) / scale == q;
  }

  /**
   * The source-pixel corners of the model-space box with centre (`cx`, `cy`) and
   * size `w` x `h`: placed back into the model input they are the box's corners.
   */
  function SourceBox(cx: real, cy: real, w: real, h: real, width: int, height: int): (b: Box)
    requires Letterbox.NonEmptySource(width, height)
    ensures var s, ox, oy := Scale(width, height), Offset(width, width, height), Offset(height, width, height);
      ToModel(b.x1, ox, s) == cx - w / 2.0 && ToModel(b.y1, oy, s) == cy - h / 2.0
      && ToModel(b.x2, ox, s) == cx + w / 2.0 && ToModel(b.y2, oy, s) == cy + h / 2.0
    ensures WellFormed(b) <==> w >= 0.0 && h >= 0.0
  {
    var s, ox, oy := Scale(width, height), Offset(width, width, height), Offset(height, width, height);
    var b := Box(ToSource(cx - w / 2.0, ox, s), ToSource(cy - h / 2.0, oy, s),
                 ToSource(cx + w / 2.0, ox, s), ToSource(cy + h / 2.0, oy, s));
    ToSourceToModel(cx - w / 2.0, 0.0, ox, s);
    ToSourceToModel(cy - h / 2.0, 0.0, oy, s);
    ToSourceToModel(cx + w / 2.0, 0.0, ox, s);
    ToSourceToModel(cy + h / 2.0, 0.0, oy, s);
    SourceOrder(cx - w / 2.0, cx + w / 2.0, ox, s);
    SourceOrder(cy - h / 2.0, cy + h / 2.0, oy, s);
    b
  }

  lemma SourceOrder(p: real, q: real, offset: real, scale: real)
    requires scale > 0.0
    ensures ToSource(p, offset, scale) <= ToSource(q, offset, scale) <==> p <= q
  {
    if p <= q {
      assert (q - offset) / scale - (p - offset) / scale == (q - p) / scale;
    } else {
      assert (p - offset) / scale - (q - offset) / scale == (p - q) / scale;
    }
  }

  /**
   * A 640 x 480 source is scaled by 2 and padded by 160 above and below, so the
   * 100 x 100 model box centred at (640, 640) covers source pixels (295, 215) to (345, 265).
   */
  lemma SourceBoxLandscapeFrame()
    ensures Scale(640, 480) == 2.0 && Offset(640, 640, 480) == 0.0 && Offset(480, 640, 480) == 160.0
    ensures SourceBox(640.0, 640.0, 100.0, 100.0, 640, 480) == Box(295.0, 215.0, 345.0, 265.0)
  {
  }

  /**
   * With the model side as target, the decoder's scale equals the preprocessing
   * scale, but its offsets are unrounded: they differ from the preprocessing offsets
   * by at most a quarter of a model-input pixel.
   */
  lemma DecoderMatchesLetterbox(width: int, height: int)
    requires Letterbox.NonEmptySource(width, height)
    ensures var g := Letterbox.Fit(width, height, 1280);
      g.scale == Scale(width, height)
      && -0.25 <= g.offsetX - Offset(width, width, height) <= 0.25
      && -0.25 <= g.offsetY - Offset(height, width, height) <= 0.25
  {
    var g := Letterbox.Fit(width, height, 1280);
    var w, h := width as real, height as real;
    if width >= height {
      assert w * g.scale == 1280.0;
      assert g.scale == 1280.0 / w;
    } else {
      assert h * g.scale == 1280.0;
      assert g.scale == 1280.0 / h;
    }
  }

  /**
   * A source with a zero side stays finite: a 0 x 480 source has scale 8/3, its
   * empty width is centred at 640 and its height fills the input, in the decoder
   * and in preprocessing alike.
   */
  lemma ZeroWidthSource()
    ensures Letterbox.NonEmptySource(0, 480)
    ensures Scale(0, 480) == 8.0 / 3.0
    ensures Offset(0, 0, 480) == 640.0 && Offset(480, 0, 480) == 0.0
    ensures var g := Letterbox.Fit(0, 480, 1280);
      g.scale == 8.0 / 3.0 && g.scaledWidth == 0 && g.offsetX == 640.0
      && g.scaledHeight == 1280 && g.offsetY == 0.0
  {
    var g := Letterbox.Fit(0, 480, 1280);
    assert g.scale == 8.0 / 3.0;
    assert 480.0 * g.scale == 1280.0;
  }

  /** What anchor `i` contributes: a candidate exactly when its best class score reaches the threshold. */
  function AnchorCandidate(out: RawOutput, width: int, height: int, threshold: real, i: nat): (r: Option<Candidate>)
    requires WellShaped(out) && i < out.anchors && Letterbox.NonEmptySource(width, height)
  {
    var best := FirstMax(ClassScores(out, i));
    if best.confidence >= threshold then
      var box := SourceBox(Feature(out, 0, i), Feature(out, 1, i), Feature(out, 2, i), Feature(out, 3, i), width, height);
      Some(Candidate(box, best.confidence, best.classId))
    else
      None
  }

  /** The candidates an anchor contributes: none or one. */
  function Emitted(r: Option<Candidate>): (cs: seq<Candidate>)
    ensures |cs| <= 1
    ensures forall c :: c in cs <==> r == Some(c)
  {
    match r
    case Some(c) => [c]
    case None => []
  }

  /** The candidates of a sequence of per-anchor results, in order. */
  function Collect(results: seq<Option<Candidate>>): seq<Candidate>
  {
    if |results| == 0 then []
    else Collect(results[..|results| - 1]) + Emitted(results[|results| - 1])
  }

  /** What each anchor yields, in anchor order. */
  function AnchorCandidates(out: RawOutput, width: int, height: int, threshold: real): (rs: seq<Option<Candidate>>)
    requires WellShaped(out) && Letterbox.NonEmptySource(width, height)
    ensures |rs| == out.anchors
    ensures forall i :: 0 <= i < out.anchors ==> rs[i] == AnchorCandidate(out, width, height, threshold, i)
  {
    seq(out.anchors, i requires 0 <= i < out.anchors => AnchorCandidate(out, width, height, threshold, i))
  }

  /** The decoder's result: the candidates of all anchors, in anchor order. */
  function Decoded(out: RawOutput, width: int, height: int, threshold: real): seq<Candidate>
    requires WellShaped(out) && Letterbox.NonEmptySource(width, height)
  {
    Collect(AnchorCandidates(out, width, height, threshold))
  }

  /** At most one candidate per result. */
  lemma {:induction false} CollectLength(results: seq<Option<Candidate>>)
    ensures |Collect(results)| <= |results|
  {
    if |results| > 0 {
      CollectLength(results[..|results| - 1]);
    }
  }

  /** Collecting a prefix of the results gives a prefix of the candidates: the order is kept. */
  lemma {:induction false} CollectPrefix(results: seq<Option<Candidate>>, j: nat)
    requires j <= |results|
    ensures Collect(results[..j]) <= Collect(results)
  {
    if j < |results| {
      var init := results[..|results| - 1];
      CollectPrefix(init, j);
      assert init[..j] == results[..j];
    } else {
      assert results[..j] == results;
    }
  }

  /** A candidate is collected exactly when some result is that candidate. */
  lemma {:induction false} CollectMembership(results: seq<Option<Candidate>>, c: Candidate)
    ensures c in Collect(results) <==> exists i :: 0 <= i < |results| && results[i] == Some(c)
  {
    if |results| > 0 {
      var init := results[..|results| - 1];
      CollectMembership(init, c);
      if c in Collect(results) && c !in Collect(init) {
        assert results[|results| - 1] == Some(c);
      }
      if exists i :: 0 <= i < |results| && results[i] == Some(c) {
        var i :| 0 <= i < |results| && results[i] == Some(c);
        if i < |results| - 1 {
          assert init[i] == Some(c);
        }
      }
    }
  }

  /**
   * An anchor yields a candidate exactly when some class score reaches the threshold,
   * or when the threshold is not positive (the scan starts at confidence 0); the
   * candidate carries the first best class and the anchor's box in source pixels.
   */
  lemma AnchorYieldsIff(out: RawOutput, width: int, height: int, threshold: real, i: nat)
    requires WellShaped(out) && i < out.anchors && Letterbox.NonEmptySource(width, height)
    ensures var scores := ClassScores(out, i);
      AnchorCandidate(out, width, height, threshold, i).Some? <==>
        (threshold <= 0.0 || exists c :: 0 <= c < NumClasses && scores[c] >= threshold)
    ensures match AnchorCandidate(out, width, height, threshold, i)
      case Some(cand) =>
        cand.confidence >= threshold && cand.confidence >= 0.0
        && Best(cand.classId, cand.confidence) == FirstMax(ClassScores(out, i))
        && cand.box == SourceBox(Feature(out, 0, i), Feature(out, 1, i), Feature(out, 2, i), Feature(out, 3, i), width, height)
      case None => true
  {
    var scores := ClassScores(out, i);
    var best := FirstMax(scores);
    if threshold > 0.0 && best.confidence >= threshold {
      assert scores[best.classId] >= threshold;
    }
  }

  /** A candidate is decoded exactly when some anchor yields it. */
  lemma DecodedMembership(out: RawOutput, width: int, height: int, threshold: real, cand: Candidate)
    requires WellShaped(out) && Letterbox.NonEmptySource(width, height)
    ensures cand in Decoded(out, width, height, threshold) <==>
      exists i :: 0 <= i < out.anchors && AnchorCandidate(out, width, height, threshold, i) == Some(cand)
  {
    CollectMembership(AnchorCandidates(out, width, height, threshold), cand);
  }

  /** Every decoded candidate reached the threshold, and there is at most one per anchor. */
  lemma DecodedAboveThreshold(out: RawOutput, width: int, height: int, threshold: real)
    requires WellShaped(out) && Letterbox.NonEmptySource(width, height)
    ensures |Decoded(out, width, height, threshold)| <= out.anchors
    ensures forall cand :: cand in Decoded(out, width, height, threshold) ==>
      cand.confidence >= threshold && cand.confidence >= 0.0
  {
    CollectLength(AnchorCandidates(out, width, height, threshold));
    forall cand | cand in Decoded(out, width, height, threshold)
      ensures cand.confidence >= threshold && cand.confidence >= 0.0
    {
      DecodedMembership(out, width, height, threshold, cand);
      var i :| 0 <= i < out.anchors && AnchorCandidate(out, width, height, threshold, i) == Some(cand);
      AnchorYieldsIff(out, width, height, threshold, i);
    }
  }

  /** An output buffer with one anchor: the given box and a score for class 0 only. */
  function SingleAnchor(score: real): RawOutput
  {
    RawOutput([640.0, 640.0, 100.0, 100.0, score, 0.0, 0.0, 0.0, 0.0, 0.0, 0.0], 11, 1)
  }

  /** A score just below the threshold yields no candidate, one just above yields exactly one. */
  lemma ThresholdBoundary(threshold: real, e: real)
    requires 0.0 < e < threshold
    ensures WellShaped(SingleAnchor(threshold - e)) && WellShaped(SingleAnchor(threshold + e))
    ensures Decoded(SingleAnchor(threshold - e), 640, 480, threshold) == []
    ensures Decoded(SingleAnchor(threshold + e), 640, 480, threshold)
      == [Candidate(Box(295.0, 215.0, 345.0, 265.0), threshold + e, 0)]
  {
    var below, above := SingleAnchor(threshold - e), SingleAnchor(threshold + e);
    assert ClassScores(below, 0) == [threshold - e, 0.0, 0.0, 0.0, 0.0, 0.0, 0.0];
    assert ClassScores(above, 0) == [threshold + e, 0.0, 0.0, 0.0, 0.0, 0.0, 0.0];
    FirstMaxUnique(ClassScores(below, 0), Best(0, threshold - e));
    FirstMaxUnique(ClassScores(above, 0), Best(0, threshold + e));
    SourceBoxLandscapeFrame();
    var none, some := AnchorCandidates(below, 640, 480, threshold), AnchorCandidates(above, 640, 480, threshold);
    assert none == [None] && none[..0] == [];
    assert some == [Some(Candidate(Box(295.0, 215.0, 345.0, 265.0), threshold + e, 0))] && some[..0] == [];
    assert Collect(none) == Collect(none[..0]) + Emitted(none[0]) == [];
    assert Collect(some) == Collect(some[..0]) + Emitted(some[0]);
  }

  /**
   * Scans the class rows of anchor `i` from first to last, keeping the running
   * maximum, which starts at class 0 with confidence 0 and moves only on a
   * strictly larger score.
   */
  method ScanClasses(out: RawOutput, i: nat) returns (maxConf: real, maxClassId: ClassId)
    requires WellShaped(out) && i < out.anchors
    ensures Best(maxClassId, maxConf) == FirstMax(ClassScores(out, i))
  {
    ghost var scores := ClassScores(out, i);
    var numDetections := out.anchors;
    maxConf := 0.0;
    maxClassId := 0;
    var c := 0;
    while c < NumClasses
      invariant 0 <= c <= NumClasses
      invariant Best(maxClassId, maxConf) == FirstMax(scores[..c])
    {
      FeatureIndexInRange(4 + c, i, out.features, numDetections);
      var conf := out.data[(4 + c) * numDetections + i];
      assert conf == scores[c];
      assert scores[..c + 1][..c] == scores[..c];
      if conf > maxConf {
        maxConf := conf;
        maxClassId := c;
      }
      c := c + 1;
    }
    assert scores[..NumClasses] == scores;
  }

  /**
   * The work of the decoder for one anchor: reads its centre-format box, scans its
   * class scores and, if the best reaches the threshold, maps the box back to
   * source pixels.
   */
  method DecodeAnchor(out: RawOutput, width: int, height: int, threshold: real, i: nat)
    returns (candidate: Option<Candidate>)
    requires WellShaped(out) && i < out.anchors && Letterbox.NonEmptySource(width, height)
    ensures candidate == AnchorCandidate(out, width, height, threshold, i)
  {
    var numDetections := out.anchors;
    FeatureIndexInRange(3, i, out.features, numDetections);
    var cx := out.data[0 * numDetections + i];
    var cy := out.data[1 * numDetections + i];
    var w := out.data[2 * numDetections + i];
    var h := out.data[3 * numDetections + i];
    var maxConf, maxClassId := ScanClasses(out, i);
    if maxConf >= threshold {
      var box := SourceBox(cx, cy, w, h, width, height);
      candidate := Some(Candidate(box, maxConf, maxClassId));
    } else {
      candidate := None;
    }
  }

  /**
   * Decodes every anchor of the output buffer in order, appending the candidate
   * each one yields.
   */
  method DecodeOutput(out: RawOutput, width: int, height: int, threshold: real) returns (candidates: seq<Candidate>)
    requires WellShaped(out) && Letterbox.NonEmptySource(width, height)
    ensures candidates == Decoded(out, width, height, threshold)
  {
    ghost var results := AnchorCandidates(out, width, height, threshold);
    candidates := [];
    var i := 0;
    while i < out.anchors
      invariant 0 <= i <= out.anchors
      invariant candidates == Collect(results[..i])
    {
      var candidate := DecodeAnchor(out, width, height, threshold, i);
      assert results[..i + 1][..i] == results[..i];
      if candidate.Some? {
        candidates := candidates + [candidate.value];
      }
      i := i + 1;
    }
    assert results[..out.anchors] == results;
  }
}
