/**
 * The image collaborator's interface, as the rest of the model sees it: an
 * 8-bit sample type, a single-channel grid of samples addressed as
 * plane[x][y], a multi-channel image, and a pixel coordinate.
 */
module Images {

  /** An unsigned 8-bit sample value. */
  type byte = x: int | 0 <= x < 256

  /** One channel of an image, indexed plane[x][y]. */
  type Plane = seq<seq<byte>>

  /** A multi-channel image, indexed image[channel][x][y]. */
  type Image = seq<Plane>

  /** A pixel coordinate (x, y). */
  datatype PixelCoord = PixelCoord(x: int, y: int)

  /** `p` is a width-by-height grid. */
  ghost predicate IsPlane(p: Plane, width: nat, height: nat)
  {
    |p| == width && forall x :: 0 <= x < width ==> |p[x]| == height
  }

  /** Every channel of `im` is a width-by-height grid. */
  ghost predicate HasSize(im: Image, width: nat, height: nat)
  {
    forall c :: 0 <= c < |im| ==> IsPlane(im[c], width, height)
  }

  /** `c` addresses a sample of a width-by-height grid. */
  predicate InBounds(c: PixelCoord, width: nat, height: nat)
  {
    0 <= c.x < width && 0 <= c.y < height
  }
}
