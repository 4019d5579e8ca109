/**
 * Letterbox geometry: how a `width` x `height` source image is scaled into the
 * square `targetSize` model input while keeping its aspect ratio, and where it is
 * placed so that the grey padding is split evenly on both sides.
 */
module Letterbox {
  import opened Reals

  /** JavaScript's `Math.round`: nearest integer, halves rounded up. */
  function Round(x: real): (r: int)
    ensures x - 0.5 < r as real <= x + 0.5
  {
    (x + 0.5).Floor
  }

  /**
   * Source sizes the geometry handles: no side is negative and at least one is
   * positive. A zero side divides `T` by zero, which JavaScript evaluates to
   * `Infinity`, so the minimum picks the other side's ratio.
   */
  predicate NonEmptySource(width: int, height: int)
  {
    width >= 0 && height >= 0 && (width > 0 || height > 0)
  }

  /**
   * The largest scale at which both sides fit: the target over the longer side.
   * `FitScaleIsMin` shows it is the source's `Math.min(T / width, T / height)`.
   */
  function FitScale(width: int, height: int, targetSize: int): (scale: real)
    requires NonEmptySource(width, height) && targetSize > 0
    ensures scale > 0.0
    ensures width as real * scale <= targetSize as real
    ensures height as real * scale <= targetSize as real
    ensures width >= height ==> width as real * scale == targetSize as real
    ensures height >= width ==> height as real * scale == targetSize as real
  {
    var longer := Max(width as real, height as real);
    var scale := targetSize as real / longer;
    assert longer * scale == targetSize as real;
    scale
  }

  /**
   * The scale is `Math.min(T / width, T / height)`; when a side is 0 its ratio is
   * JavaScript's `Infinity`, so the minimum is the other side's ratio.
   */
  lemma FitScaleIsMin(width: int, height: int, targetSize: int)
    requires NonEmptySource(width, height) && targetSize > 0
    ensures width > 0 && height > 0 ==>
      FitScale(width, height, targetSize) == Min(targetSize as real / width as real, targetSize as real / height as real)
    ensures width == 0 ==> FitScale(width, height, targetSize) == targetSize as real / height as real
    ensures height == 0 ==> FitScale(width, height, targetSize) == targetSize as real / width as real
  {
    var t := targetSize as real;
    var scale := FitScale(width, height, targetSize);
    if width > 0 && height > 0 {
      var m := Min(t / width as real, t / height as real);
      ScaledSideFits(width, height, targetSize, m);
      ScaledSideFits(height, width, targetSize, m);
      if width >= height {
        assert width as real * scale == width as real * m;
      } else {
        assert height as real * scale == height as real * m;
      }
    }
  }

  /** The placement of the scaled source inside the model input. */
  datatype Geometry = Geometry(
    scale: real,
    scaledWidth: int,
    scaledHeight: int,
    offsetX: real,
    offsetY: real)

  /**
   * The geometry preprocessing computes: the scale is the largest one at which the
   * whole source fits, the scaled sides are rounded to whole pixels and the offsets
   * centre the scaled image.
   */
  function Fit(width: int, height: int, targetSize: int): (g: Geometry)
    requires NonEmptySource(width, height) && targetSize > 0
    ensures g.scale > 0.0
    ensures width as real * g.scale <= targetSize as real
    ensures height as real * g.scale <= targetSize as real
    ensures 0 <= g.scaledWidth <= targetSize && 0 <= g.scaledHeight <= targetSize
    ensures width as real * g.scale - 0.5 < g.scaledWidth as real <= width as real * g.scale + 0.5
    ensures height as real * g.scale - 0.5 < g.scaledHeight as real <= height as real * g.scale + 0.5
    ensures 0.0 <= g.offsetX && 0.0 <= g.offsetY
    ensures 2.0 * g.offsetX + g.scaledWidth as real == targetSize as real
    ensures 2.0 * g.offsetY + g.scaledHeight as real == targetSize as real
    ensures width >= height ==> g.scaledWidth == targetSize && g.offsetX == 0.0
    ensures height >= width ==> g.scaledHeight == targetSize && g.offsetY == 0.0
  {
    var t := targetSize as real;
    var scale := FitScale(width, height, targetSize);
    var sw := Round(width as real * scale);
    var sh := Round(height as real * scale);
    Geometry(scale, sw, sh, (t - sw as real) / 2.0, (t - sh as real) / 2.0)
  }

  /**
   * Scaling by `Min(t/side, t/other)` never overshoots the target, and the side
   * that is at least as long as the other lands on it exactly.
   */
  lemma ScaledSideFits(side: int, other: int, targetSize: int, scale: real)
    requires side > 0 && other > 0 && targetSize > 0
    requires scale == Min(targetSize as real / side as real, targetSize as real / other as real)
      || scale == Min(targetSize as real / other as real, targetSize as real / side as real)
    ensures scale > 0.0
    ensures side as real * scale <= targetSize as real
    ensures side >= other ==> side as real * scale == targetSize as real
  {
    var s, t := side as real, targetSize as real;
    assert s * (t / s) == t;
    assert scale <= t / s;
    assert s * scale <= s * (t / s);
    if side >= other {
      assert t / s <= t / other as real by {
        assert t / s * s == t;
        assert t / other as real * other as real == t;
      }
    }
  }

  /** Both scaled sides fit the target and the longer side (either, for a square) fills it. */
  lemma FitInvariant(width: int, height: int, targetSize: int)
    requires NonEmptySource(width, height) && targetSize > 0
    ensures var g := Fit(width, height, targetSize);
      g.scaledWidth <= targetSize && g.scaledHeight <= targetSize
      && (g.scaledWidth == targetSize || g.scaledHeight == targetSize)
  {
  }

  /**
   * Rounding can make both scaled sides equal the target although the source is
   * not square: 2560 x 2559 scales by 1/2 to 1280 x 1279.5, which rounds to 1280.
   */
  lemma BothSidesFillTarget()
    ensures var g := Fit(2560, 2559, 1280);
      g.scaledWidth == 1280 && g.scaledHeight == 1280 && g.offsetY == 0.0
  {
    var g := Fit(2560, 2559, 1280);
    assert g.scale == 0.5;
    assert 2559.0 * g.scale + 0.5 == 1280.0;
  }

  /** A 640 x 480 frame fills the width of a 1280 input and is padded by 160 above and below. */
  lemma FitLandscapeFrame()
    ensures Fit(640, 480, 1280) == Geometry(2.0, 1280, 960, 0.0, 160.0)
  {
    var g := Fit(640, 480, 1280);
    assert g.scale == 2.0;
    assert 480.0 * g.scale + 0.5 == 960.5;
  }
}
