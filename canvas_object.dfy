/** A drawable object with a pixel-exact hit test (src/CanvasObject.ts): integer bounds
    around a fractional box, an RGBA buffer captured after drawing, and the alpha lookup. */
module CanvasObject {
  import opened Wrappers

  /** One entry of a `Uint8ClampedArray`. */
  type Byte = b: int | 0 <= b < 256

  /** The record `bounds` returns: whole-pixel corner and extents. */
  datatype PixelBox = PixelBox(x: int, y: int, width: int, height: int)

  /** `Math.ceil`: the smallest whole number at or above `r`. */
  function Ceil(r: real): (c: int)
    ensures (c as real) - 1.0 < r <= c as real
  {
    -((-r).Floor)
  }

  /** Index of the alpha byte of pixel (pixelX, pixelY) in an RGBA buffer whose rows are
      `rowWidth` pixels wide: the fourth byte of pixel number pixelY·rowWidth + pixelX. */
  function AlphaIndex(pixelX: int, pixelY: int, rowWidth: int): (i: int)
    ensures i % 4 == 3 && i / 4 == pixelY * rowWidth + pixelX
  {
    (pixelY * rowWidth + pixelX) * 4 + 3
  }

  class CanvasObject {
    var x: real
    var y: real
    var width: real
    var height: real
    var pixelData: Option<seq<Byte>>

    /** A captured buffer holds four bytes for every pixel of the current bounds. */
    ghost predicate Valid()
      reads this
    {
      pixelData.Some? ==> |pixelData.value| == 4 * Bounds().width * Bounds().height
    }

    constructor (x: real, y: real, width: real, height: real)
      ensures Valid()
      ensures this.x == x && this.y == y && this.width == width && this.height == height
      ensures pixelData == None
    {
      this.x, this.y, this.width, this.height := x, y, width, height;
      pixelData := None;
    }

    /** `bounds`: the corner rounded down and the extents rounded up, so the whole-pixel box
        covers the fractional one. */
    function Bounds(): (b: PixelBox)
      reads this
      ensures b.x as real <= x < b.x as real + 1.0 && b.y as real <= y < b.y as real + 1.0
      ensures b.width as real - 1.0 < width <= b.width as real
      ensures b.height as real - 1.0 < height <= b.height as real
    {
      PixelBox(x.Floor, y.Floor, Ceil(width), Ceil(height))
    }

    /** `capturePixelData`: keeps the buffer that `getImageData` returned for the current
        bounds, but only when both rounded extents are positive; otherwise the previous
        buffer (or none) stays. */
    method CapturePixelData(imageData: seq<Byte>)
      requires Valid()
      requires Bounds().width > 0 && Bounds().height > 0 ==>
                 |imageData| == 4 * Bounds().width * Bounds().height
      modifies this
      ensures Valid()
      ensures x == old(x) && y == old(y) && width == old(width) && height == old(height)
      ensures pixelData == if Bounds().width > 0 && Bounds().height > 0 then Some(imageData)
                           else old(pixelData)
    {
      var b := Bounds();
      if b.width > 0 && b.height > 0 {
        pixelData := Some(imageData);
      }
    }

    /** The local point (px − x, py − y) lies in [0, width) × [0, height). */
    predicate LocalInBounds(px: real, py: real)
      reads this
    {
      var localX, localY := px - x, py - y;
      !(localX < 0.0 || localY < 0.0 || localX >= width || localY >= height)
    }

    /** `isPointInPixel`: false without a captured buffer and for points outside the box;
        otherwise the alpha byte of the pixel under the point is positive. A read past the
        end of the buffer is `undefined` in the source and compares as false. */
    function IsPointInPixel(px: real, py: real): (hit: bool)
      reads this
      ensures hit ==> pixelData.Some? && LocalInBounds(px, py)
      ensures pixelData.Some? && LocalInBounds(px, py) ==>
                var i := AlphaIndex((px - x).Floor, (py - y).Floor, Bounds().width);
                hit == (0 <= i < |pixelData.value| && pixelData.value[i] > 0)
    {
      if pixelData.None? then false
      else
        var localX := px - x;
        var localY := py - y;
        if localX < 0.0 || localY < 0.0 || localX >= width || localY >= height then false
        else
          var pixelX := localX.Floor;
          var pixelY := localY.Floor;
          var pixelIndex := (pixelY * Bounds().width + pixelX) * 4;
          var data := pixelData.value;
          0 <= pixelIndex + 3 < |data| && data[pixelIndex + 3] > 0
    }
  }

  /** For a point that passes the bounds check, the alpha index read lies inside a buffer of
      4·ceil(width)·ceil(height) bytes. */
  lemma AlphaIndexInBuffer(localX: real, localY: real, width: real, height: real)
    requires 0.0 <= localX < width && 0.0 <= localY < height
    ensures 0 <= AlphaIndex(localX.Floor, localY.Floor, Ceil(width))
              < 4 * Ceil(width) * Ceil(height)
  {
    var w, h := Ceil(width), Ceil(height);
    var px, py := localX.Floor, localY.Floor;
    assert 0 <= px < w && 0 <= py < h;
    assert py * w <= (h - 1) * w by {
      MultiplyMonotone(py, h - 1, w);
    }
    assert (h - 1) * w + w == h * w;
  }

  lemma MultiplyMonotone(a: int, b: int, c: int)
    requires a <= b && 0 <= c
    ensures a * c <= b * c
  {
  }

  /** With a captured buffer that matches the bounds, `isPointInPixel` never falls off the
      end of the buffer: for every point inside the box it reports the alpha byte itself. */
  lemma PixelTestReadsBuffer(o: CanvasObject, px: real, py: real)
    requires o.Valid() && o.pixelData.Some? && o.LocalInBounds(px, py)
    ensures var i := AlphaIndex((px - o.x).Floor, (py - o.y).Floor, o.Bounds().width);
            0 <= i < |o.pixelData.value| && o.IsPointInPixel(px, py) == (o.pixelData.value[i] > 0)
  {
    AlphaIndexInBuffer(px - o.x, py - o.y, o.width, o.height);
  }
}
