/**
 * The canvas image: a width × height grid of 32-bit ARGB words (the image format is RGB32, whose
 * pixels always read back with alpha 0xFF).
 */
module Pixels {
  import opened Geometry

  /**
   * A `QRgb` word as `QImage.pixel` returns it from an RGB32 image: the alpha byte is always
   * 0xFF, so only the opaque words 0xFF000000 to 0xFFFFFFFF occur.
   */
  type Color = c: int | 0xFF00_0000 <= c < 0x1_0000_0000 witness 0xFFFF_FFFF

  const White: Color := 0xFFFF_FFFF
  const Black: Color := 0xFF00_0000

  datatype Image = Image(width: nat, height: nat, pixels: map<Point, Color>)

  /** Exactly the cells of the grid carry a colour. */
  predicate Valid(img: Image)
  {
    img.pixels.Keys == Cells(img.width, img.height)
  }

  /** The same grid, possibly with other colours. */
  predicate SameGrid(a: Image, b: Image)
  {
    a.width == b.width && a.height == b.height && a.pixels.Keys == b.pixels.Keys
  }

  /** The cells of a width × height grid. */
  function Cells(width: nat, height: nat): (s: set<Point>)
    ensures forall p :: p in s <==> 0 <= p.x < width && 0 <= p.y < height
  {
    set x: int, y: int | 0 <= x < width && 0 <= y < height :: Point(x, y)
  }

  predicate InBounds(img: Image, p: Point)
  {
    0 <= p.x < img.width && 0 <= p.y < img.height
  }

  /** In a valid image the coloured cells are exactly the in-bounds points. */
  lemma ValidCells(img: Image, p: Point)
    requires Valid(img)
    ensures p in img.pixels <==> InBounds(img, p)
  {
  }

  /** A width × height image filled with `color`. */
  function Filled(width: nat, height: nat, color: Color): (img: Image)
    ensures Valid(img) && img.width == width && img.height == height
    ensures forall p :: p in img.pixels ==> img.pixels[p] == color
  {
    Image(width, height, map p | p in Cells(width, height) :: color)
  }

  /** `QImage.setPixel` at a cell of the grid. */
  function SetPixel(img: Image, p: Point, color: Color): (r: Image)
    requires p in img.pixels
    ensures SameGrid(img, r) && r.pixels[p] == color
    ensures forall q :: q in img.pixels && q != p ==> r.pixels[q] == img.pixels[q]
  {
    img.(pixels := img.pixels[p := color])
  }

  /** Every cell is white. */
  predicate AllWhite(img: Image)
  {
    forall p :: p in img.pixels ==> img.pixels[p] == White
  }

  /** A grid is all white exactly when it equals the white image of its own size. */
  lemma AllWhiteIsFilled(img: Image)
    ensures Valid(img) ==> (AllWhite(img) <==> img == Filled(img.width, img.height, White))
  {
    if Valid(img) && AllWhite(img) {
      var w := Filled(img.width, img.height, White);
      assert img.pixels.Keys == w.pixels.Keys;
      assert img.pixels == w.pixels;
    }
  }
}
