/**
 * The drawing surface of a thumbnail: a `BufferedImage` and the `Graphics2D`
 * that strokes rectangle outlines onto it. Pixels are not modelled; an image
 * keeps the outlines stroked on it, in stroke order.
 */
module Graphics {
  import opened Binary

  /** `java.awt.Rectangle`: a corner and a signed extent, never normalised. */
  datatype Rect = Rect(x: int32, y: int32, width: int32, height: int32)

  /** Where an image's pixels came from. */
  datatype Pixels = Blank | FromCodec(encoded: seq<byte>)

  datatype Image = Image(width: int, height: int, pixels: Pixels, outlines: seq<Rect>)

  const PlaceholderWidth := 200
  const PlaceholderHeight := 150

  /** `new BufferedImage(200, 150, TYPE_INT_RGB)`: a blank image with nothing drawn on it. */
  const Placeholder := Image(PlaceholderWidth, PlaceholderHeight, Blank, [])

  /** The `Graphics2D` of one image; `Draw` is `g.draw(rect)` in the fixed outline colour. */
  class Canvas {
    var image: Image

    constructor (target: Image)
      ensures image == target
    {
      image := target;
    }

    method Draw(r: Rect)
      modifies this
      ensures image == old(image).(outlines := old(image).outlines + [r])
    {
      image := image.(outlines := image.outlines + [r]);
    }
  }
}
