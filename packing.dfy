/**
 * Packing of the letterboxed canvas into the model input: the interleaved RGBA
 * bytes of a `targetSize` x `targetSize` image become a planar tensor holding all
 * red values, then all green values, then all blue values, each scaled to [0, 1].
 */
module Packing {

  /** One channel byte of the canvas pixel data. */
  type Byte = b: int | 0 <= b < 256

  /** A channel byte scaled into [0, 1]. */
  function Normalize(v: Byte): (r: real)
    ensures 0.0 <= r <= 1.0
    ensures r == 0.0 <==> v == 0
    ensures r == 1.0 <==> v == 255
  {
    v as real / 255.0
  }

  /** Channel `c` of every pixel, in pixel order. */
  function Plane(rgba: seq<Byte>, pixels: nat, c: nat): (r: seq<real>)
    requires c < 3 && |rgba| == 4 * pixels
    ensures |r| == pixels
    ensures forall p :: 0 <= p < pixels ==> r[p] == Normalize(rgba[4 * p + c])
  {
    seq(pixels, p requires 0 <= p < pixels => Normalize(rgba[4 * p + c]))
  }

  /** The planar tensor: red plane, green plane, blue plane. The alpha bytes are not used. */
  function Planar(rgba: seq<Byte>, pixels: nat): seq<real>
    requires |rgba| == 4 * pixels
  {
    Plane(rgba, pixels, 0) + Plane(rgba, pixels, 1) + Plane(rgba, pixels, 2)
  }

  /** Entry `c * pixels + p` of the tensor is channel `c` of pixel `p`, scaled. */
  lemma PlanarAt(rgba: seq<Byte>, pixels: nat, c: nat, p: nat)
    requires |rgba| == 4 * pixels && c < 3 && p < pixels
    ensures |Planar(rgba, pixels)| == 3 * pixels
    ensures c * pixels + p < 3 * pixels
    ensures Planar(rgba, pixels)[c * pixels + p] == Normalize(rgba[4 * p + c])
  {
    var r, g, b := Plane(rgba, pixels, 0), Plane(rgba, pixels, 1), Plane(rgba, pixels, 2);
    assert Planar(rgba, pixels) == r + g + b;
    if c == 0 {
    } else if c == 1 {
      assert (r + g + b)[pixels + p] == g[p];
    } else {
      assert (r + g + b)[2 * pixels + p] == b[p];
    }
  }

  /** Pixel `p` has its red, green and blue values, scaled, at offset `p` of the three planes of `buffer`. */
  ghost predicate PixelPacked(buffer: seq<real>, rgba: seq<Byte>, pixels: nat, p: nat)
    requires |buffer| == 3 * pixels && |rgba| == 4 * pixels && p < pixels
  {
    buffer[p] == Normalize(rgba[4 * p])
    && buffer[pixels + p] == Normalize(rgba[4 * p + 1])
    && buffer[2 * pixels + p] == Normalize(rgba[4 * p + 2])
  }

  /** Writing the three channels of pixel `q` extends the packed prefix by one pixel and disturbs no earlier pixel. */
  lemma PackPixelStep(before: seq<real>, after: seq<real>, rgba: seq<Byte>, pixels: nat, q: nat)
    requires |before| == 3 * pixels && |rgba| == 4 * pixels && q < pixels
    requires forall p :: 0 <= p < q ==> PixelPacked(before, rgba, pixels, p)
    requires after == before[q := Normalize(rgba[4 * q])][pixels + q := Normalize(rgba[4 * q + 1])]
                            [2 * pixels + q := Normalize(rgba[4 * q + 2])]
    ensures forall p :: 0 <= p <= q ==> PixelPacked(after, rgba, pixels, p)
  {
    forall p | 0 <= p <= q
      ensures PixelPacked(after, rgba, pixels, p)
    {
      if p < q {
        assert PixelPacked(before, rgba, pixels, p);
      }
    }
  }

  /** A buffer that holds, for every pixel, its three scaled channels at their plane offsets is the planar tensor. */
  lemma PlanarFromPlanes(buffer: seq<real>, rgba: seq<Byte>, pixels: nat)
    requires |buffer| == 3 * pixels && |rgba| == 4 * pixels
    requires forall p :: 0 <= p < pixels ==> PixelPacked(buffer, rgba, pixels, p)
    ensures buffer == Planar(rgba, pixels)
  {
    forall k | 0 <= k < 3 * pixels
      ensures buffer[k] == Planar(rgba, pixels)[k]
    {
      var c := if k < pixels then 0 else if k < 2 * pixels then 1 else 2;
      assert PixelPacked(buffer, rgba, pixels, k - c * pixels);
      PlanarAt(rgba, pixels, c, k - c * pixels);
    }
  }

  /** Every tensor entry lies in [0, 1]. */
  lemma PlanarInUnitRange(rgba: seq<Byte>, pixels: nat)
    requires |rgba| == 4 * pixels
    ensures forall k :: 0 <= k < |Planar(rgba, pixels)| ==> 0.0 <= Planar(rgba, pixels)[k] <= 1.0
  {
  }

  /** The alpha byte of a pixel never reaches the tensor: images that differ only in alpha pack alike. */
  lemma PlanarIgnoresAlpha(rgba: seq<Byte>, other: seq<Byte>, pixels: nat)
    requires |rgba| == |other| == 4 * pixels
    requires forall k :: 0 <= k < |rgba| && k % 4 != 3 ==> rgba[k] == other[k]
    ensures Planar(rgba, pixels) == Planar(other, pixels)
  {
    forall c | 0 <= c < 3
      ensures Plane(rgba, pixels, c) == Plane(other, pixels, c)
    {
      forall p | 0 <= p < pixels
        ensures Plane(rgba, pixels, c)[p] == Plane(other, pixels, c)[p]
      {
        ChannelOffset(p, c);
      }
    }
  }

  /** Byte `4 * p + c` of the pixel data is channel `c` of pixel `p`. */
  lemma ChannelOffset(p: nat, c: nat)
    requires c < 4
    ensures (4 * p + c) % 4 == c
  {
  }

  /**
   * Row-major pixel numbering of a `size` x `size` image maps every (row, column)
   * pair to a pixel index below `size * size`; with `RowMajorUnique` and
   * `RowMajorCovers` it is a bijection onto those indices.
   */
  lemma RowMajorIndex(size: nat, y: nat, x: nat)
    requires y < size && x < size
    ensures y * size + x < size * size
  {
    calc {
      y * size + x;
    <
      y * size + size;
    ==
      (y + 1) * size;
    <=  { MulMonotone(y + 1, size, size); }
      size * size;
    }
  }

  /** Distinct (row, column) pairs get distinct pixel indices: no index is written twice. */
  lemma RowMajorUnique(size: nat, y: nat, x: nat, y': nat, x': nat)
    requires y < size && x < size && y' < size && x' < size
    requires y * size + x == y' * size + x'
    ensures y == y' && x == x'
  {
    if y < y' {
      MulMonotone(y + 1, y', size);
      assert false;
    } else if y' < y {
      MulMonotone(y' + 1, y, size);
      assert false;
    }
  }

  /** Every pixel index below `size * size` is reached by the row `p / size` and the column `p % size`. */
  lemma RowMajorCovers(size: nat, p: nat)
    requires p < size * size
    ensures p / size < size && p % size < size
    ensures (p / size) * size + p % size == p
  {
    if p / size >= size {
      MulMonotone(size, p / size, size);
      assert false;
    }
  }

  lemma MulMonotone(a: nat, b: nat, c: nat)
    requires a <= b
    ensures a * c <= b * c
  {
  }

  /**
   * Copies the canvas pixel data into a fresh planar tensor, row by row and pixel
   * by pixel, writing the red, green and blue entries of each pixel.
   */
  method PackTensor(rgba: array<Byte>, targetSize: nat) returns (tensor: array<real>)
    requires rgba.Length == 4 * (targetSize * targetSize)
    ensures fresh(tensor)
    ensures tensor[..] == Planar(rgba[..], targetSize * targetSize)
  {
    var area := targetSize * targetSize;
    tensor := new real[3 * area];
    var y := 0;
    ghost var done := 0;
    while y < targetSize
      invariant 0 <= y <= targetSize
      invariant done == y * targetSize <= area
      invariant forall p :: 0 <= p < done ==> PixelPacked(tensor[..], rgba[..], area, p)
    {
      var x := 0;
      while x < targetSize
        invariant 0 <= x <= targetSize
        invariant done == y * targetSize + x <= area
        invariant forall p :: 0 <= p < done ==> PixelPacked(tensor[..], rgba[..], area, p)
      {
        RowMajorIndex(targetSize, y, x);
        var tensorIndex := y * targetSize + x;
        assert tensorIndex == done < area;
        var pixelIndex := tensorIndex * 4;
        ghost var before := tensor[..];
        tensor[0 * area + tensorIndex] := Normalize(rgba[pixelIndex]);
        tensor[1 * area + tensorIndex] := Normalize(rgba[pixelIndex + 1]);
        tensor[2 * area + tensorIndex] := Normalize(rgba[pixelIndex + 2]);
        PackPixelStep(before, tensor[..], rgba[..], area, tensorIndex);
        x := x + 1;
        done := done + 1;
      }
      MulMonotone(y + 1, targetSize, targetSize);
      assert done == (y + 1) * targetSize;
      y := y + 1;
    }
    PlanarFromPlanes(tensor[..], rgba[..], area);
  }
}
