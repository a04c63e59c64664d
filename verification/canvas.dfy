/** The canvas: a width, a height and a flat row-major store of colours. */
module Canvases {
  import opened Wrappers
  import Colors

  /** Pixel (x, y) lives at index y * width + x of `pixels`. */
  datatype Canvas = Canvas(width: nat, height: nat, pixels: seq<Colors.Color>)

  function Index(c: Canvas, x: nat, y: nat): nat {
    y * c.width + x
  }

  /** `canvas(width, height)`: width * height default (black) colours. */
  function NewCanvas(width: nat, height: nat): (c: Canvas)
    ensures c.width == width && c.height == height
    ensures |c.pixels| == width * height
    ensures forall i :: 0 <= i < |c.pixels| ==> c.pixels[i] == Colors.Black
  {
    Canvas(width, height, seq(width * height, _ => Colors.Color()))
  }

  /** `pixel_at`: `.at` on the flat index, so only the index is
      bounds-checked, not x against the width. */
  function PixelAt(c: Canvas, x: nat, y: nat): (r: Result<Colors.Color>)
    ensures r.Failure? <==> Index(c, x, y) >= |c.pixels|
    ensures r.Failure? ==> r.error == OutOfRange
  {
    if Index(c, x, y) < |c.pixels| then Success(c.pixels[Index(c, x, y)])
    else Failure(OutOfRange)
  }

  /** `write_pixel`: unchecked indexing, so the index must be in range. */
  function WritePixel(c: Canvas, x: nat, y: nat, color: Colors.Color): (r: Canvas)
    requires Index(c, x, y) < |c.pixels|
    ensures r.width == c.width && r.height == c.height && |r.pixels| == |c.pixels|
  {
    c.(pixels := c.pixels[Index(c, x, y) := color])
  }

  /** A pixel inside the width and height has an index inside the store of
      a freshly made canvas. */
  lemma {:induction false} InsideIsInRange(width: nat, height: nat, x: nat, y: nat)
    requires x < width && y < height
    ensures y * width + x < width * height
  {
    assert y * width + x < y * width + width == (y + 1) * width;
    assert (y + 1) * width <= height * width by {
      MulLe(y + 1, height, width);
    }
  }

  lemma MulLe(a: nat, b: nat, k: nat)
    requires a <= b
    ensures a * k <= b * k
  {
  }

  /** Every pixel of a fresh canvas reads back as black. */
  lemma {:induction false} NewCanvasIsBlack(width: nat, height: nat, x: nat, y: nat)
    requires x < width && y < height
    ensures PixelAt(NewCanvas(width, height), x, y) == Success(Colors.Black)
  {
    InsideIsInRange(width, height, x, y);
  }

  /** Reading a pixel after writing it gives the written colour. */
  lemma ReadAfterWrite(c: Canvas, x: nat, y: nat, color: Colors.Color)
    requires Index(c, x, y) < |c.pixels|
    ensures PixelAt(WritePixel(c, x, y, color), x, y) == Success(color)
  {
  }

  /** Writing a pixel leaves every pixel at another index as it was. */
  lemma WriteKeepsOthers(c: Canvas, x: nat, y: nat, color: Colors.Color, x': nat, y': nat)
    requires Index(c, x, y) < |c.pixels|
    requires Index(c, x', y') != Index(c, x, y)
    ensures PixelAt(WritePixel(c, x, y, color), x', y') == PixelAt(c, x', y')
  {
  }

  /** Inside the width, distinct coordinates have distinct indices. */
  lemma {:induction false} DistinctPixelsDistinctIndices(c: Canvas, x: nat, y: nat, x': nat, y': nat)
    requires x < c.width && x' < c.width && (x, y) != (x', y')
    ensures Index(c, x, y) != Index(c, x', y')
  {
    if y == y' {
      assert x != x';
    } else if y < y' {
      assert y * c.width + x < (y + 1) * c.width <= y' * c.width by {
        MulLe(y + 1, y', c.width);
      }
    } else {
      assert y' * c.width + x' < (y' + 1) * c.width <= y * c.width by {
        MulLe(y' + 1, y, c.width);
      }
    }
  }

  /** Since x is not checked against the width, writing at x == width
      lands on the first pixel of the next row. */
  lemma WritePastRowEndWraps(c: Canvas, y: nat, color: Colors.Color)
    requires Index(c, c.width, y) < |c.pixels|
    ensures PixelAt(WritePixel(c, c.width, y, color), 0, y + 1) == Success(color)
  {
    assert Index(c, 0, y + 1) == Index(c, c.width, y);
  }
}
