/** The decoded RGBA pixel buffer that both pipelines read through a canvas
    2D context, and the colour test they apply to each pixel. */
module Pixels {

  /** One 8-bit colour channel, as stored in canvas image data. */
  newtype Byte = b: int | 0 <= b < 256

  datatype Rgba = Rgba(red: Byte, green: Byte, blue: Byte, alpha: Byte)

  /** What a canvas returns for a pixel outside the bitmap. */
  const TransparentBlack: Rgba := Rgba(0, 0, 0, 0)

  /** A bitmap of `width` x `height` pixels, stored row by row. */
  datatype Image = Image(width: nat, height: nat, rows: seq<seq<Rgba>>) {
    predicate WellFormed() {
      |rows| == height && forall y | 0 <= y < |rows| :: |rows[y]| == width
    }
  }

  type Bitmap = img: Image | img.WellFormed() witness Image(0, 0, [])

  /** The pixel at (x, y); transparent black outside the bitmap. */
  function PixelAt(bmp: Bitmap, x: int, y: int): (p: Rgba) {
    if 0 <= x < bmp.width && 0 <= y < bmp.height then bmp.rows[y][x] else TransparentBlack
  }

  /** A pixel counts as colour when it is not fully transparent and not pure white. */
  predicate IsColoured(p: Rgba) {
    p.alpha != 0 && (p.red < 255 || p.green < 255 || p.blue < 255)
  }

  /** Some pixel of the one-pixel-high strip [x, x + w) at height y is coloured. */
  ghost predicate StripHasColour(bmp: Bitmap, x: int, y: int, w: int) {
    exists px | x <= px < x + w :: IsColoured(PixelAt(bmp, px, y))
  }

  /** Some pixel of the rectangle [x, x + w) x [y, y + h) is coloured. */
  ghost predicate RectHasColour(bmp: Bitmap, x: int, y: int, w: int, h: int) {
    exists px, py | x <= px < x + w && y <= py < y + h :: IsColoured(PixelAt(bmp, px, py))
  }

  /** No pixel of the bitmap is coloured: it is all white or transparent. */
  ghost predicate IsBlank(bmp: Bitmap) {
    forall x, y :: !IsColoured(PixelAt(bmp, x, y))
  }

  /** The canvas primitive `getImageData(sx, sy, w, h)`, given here by
      definition: the pixels of the rectangle, row by row (the four channels
      of a pixel are grouped into one record). A zero width or height is
      refused: the canvas throws an IndexSizeError for it. */
  function GetImageData(bmp: Bitmap, sx: int, sy: int, w: nat, h: nat): (data: seq<Rgba>)
    requires w >= 1 && h >= 1
    ensures |data| == w * h
    ensures forall k | 0 <= k < |data| :: data[k] == PixelAt(bmp, sx + k % w, sy + k / w)
  {
    seq(w * h, k requires 0 <= k < w * h => PixelAt(bmp, sx + k % w, sy + k / w))
  }

  /** A one-pixel-high read is the strip itself: pixel k is at (sx + k, sy). */
  lemma StripData(bmp: Bitmap, sx: int, sy: int, w: nat)
    requires w >= 1
    ensures |GetImageData(bmp, sx, sy, w, 1)| == w
    ensures forall k | 0 <= k < w :: GetImageData(bmp, sx, sy, w, 1)[k] == PixelAt(bmp, sx + k, sy)
  {
    forall k | 0 <= k < w
      ensures GetImageData(bmp, sx, sy, w, 1)[k] == PixelAt(bmp, sx + k, sy)
    {
      RowMajorPosition(k, 0, w, 1);
    }
  }

  /** Index k of a w-wide row-major rectangle of h rows lies at column k % w of row k / w. */
  lemma RowMajorIndex(k: int, w: int, h: int)
    requires w > 0 && 0 <= k < w * h
    ensures 0 <= k % w < w && 0 <= k / w < h
  {
    var q := k / w;
    assert q * w <= k < h * w;
    ScaledLess(q, h, w);
  }

  /** Column dx of row dy of a w-wide row-major rectangle is at index dy * w + dx. */
  lemma RowMajorPosition(dx: int, dy: int, w: int, h: int)
    requires 0 <= dx < w && 0 <= dy < h
    ensures 0 <= dy * w + dx < w * h
    ensures (dy * w + dx) % w == dx && (dy * w + dx) / w == dy
  {
    var k := dy * w + dx;
    assert k < (dy + 1) * w <= h * w;
    var q, r := k / w, k % w;
    assert (q - dy) * w == dx - r;
    ScaledZero(q - dy, w, dx - r);
  }

  lemma ScaledLess(a: int, b: int, w: int)
    requires w > 0 && a * w < b * w
    ensures a < b
  {
    assert (b - a) * w > 0;
  }

  lemma ScaledZero(m: int, w: int, d: int)
    requires w > 0 && m * w == d && -w < d < w
    ensures m == 0
  {
    ScaledAway(m, w);
  }

  lemma ScaledAway(m: int, w: int)
    requires w > 0
    ensures m > 0 ==> m * w >= w
    ensures m < 0 ==> m * w <= -w
  {
    if m > 0 {
      assert (m - 1) * w >= 0;
    } else if m < 0 {
      assert (-m - 1) * w >= 0;
    }
  }
}
