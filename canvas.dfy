/** A flat frame buffer of colours, one per pixel, in row-major order
    (src/canvas.rs). */
module Canvas {
  import opened Vectors
  import opened Colors

  /** The colour every pixel of a new canvas holds. */
  const Black: Color := Color(Zero)

  /** `Canvas`: `dim` is (width, height); `inner` holds one colour per pixel,
      the pixel (x, y) at index x + y * width. */
  class Canvas {
    const width: nat
    const height: nat
    const inner: array<Color>

    ghost predicate Valid()
      reads this
    {
      inner.Length == width * height
    }

    /** `Canvas::new([width, height])`: width * height black pixels. */
    constructor (w: nat, h: nat)
      ensures Valid()
      ensures width == w && height == h
      ensures fresh(inner)
      ensures forall i :: 0 <= i < inner.Length ==> inner[i] == Black
    {
      width, height := w, h;
      inner := new Color[w * h](_ => Black);
    }

    /** `Default for Canvas`: the 0 x 0 canvas. */
    constructor Default()
      ensures Valid()
      ensures width == 0 && height == 0 && inner.Length == 0
      ensures fresh(inner)
    {
      width, height := 0, 0;
      inner := new Color[0];
    }

    /** `index_at`: the row-major index of (x, y). */
    function IndexAt(x: nat, y: nat): nat
      reads this
    {
      x + y * width
    }

    /** `pixel_at`: the colour stored at the pixel's index. An index past the
        end of the buffer panics in the source, hence the precondition. */
    function PixelAt(x: nat, y: nat): Color
      requires IndexAt(x, y) < inner.Length
      reads this, inner
    {
      inner[IndexAt(x, y)]
    }

    /** `set_pixel`: overwrites the colour at the pixel's index and nothing
        else; dimensions and buffer length are unchanged. */
    method SetPixel(x: nat, y: nat, c: Color)
      requires Valid()
      requires IndexAt(x, y) < inner.Length
      modifies inner
      ensures Valid()
      ensures PixelAt(x, y) == c
      ensures forall i :: 0 <= i < inner.Length && i != IndexAt(x, y) ==> inner[i] == old(inner[i])
    {
      inner[IndexAt(x, y)] := c;
    }

    /** Within the dimensions, the index lands in the buffer and no two pixels
        share one. */
    lemma IndexInBounds(x: nat, y: nat)
      requires x < width && y < height
      ensures IndexAt(x, y) < width * height
    {
      MulMonotone(y + 1, height, width);
    }

    lemma IndexInjective(x1: nat, y1: nat, x2: nat, y2: nat)
      requires x1 < width && x2 < width
      ensures IndexAt(x1, y1) == IndexAt(x2, y2) ==> x1 == x2 && y1 == y2
    {
      if y1 < y2 {
        MulMonotone(y1 + 1, y2, width);
      } else if y2 < y1 {
        MulMonotone(y2 + 1, y1, width);
      }
    }
  }

  lemma MulMonotone(a: nat, b: nat, w: nat)
    requires a <= b
    ensures a * w <= b * w
  {}

  /** A new canvas is black at every pixel within its dimensions. */
  method NewCanvasIsBlack(w: nat, h: nat, x: nat, y: nat) returns (c: Color)
    requires x < w && y < h
    ensures c == Black
  {
    var canvas := new Canvas(w, h);
    canvas.IndexInBounds(x, y);
    c := canvas.PixelAt(x, y);
  }

  /** On a new canvas, writing a pixel and reading it back gives the colour
      written, and every other pixel stays black. */
  method WriteThenRead(w: nat, h: nat, x: nat, y: nat, c: Color, x2: nat, y2: nat)
    returns (got: Color, other: Color)
    requires x < w && y < h
    requires x2 < w && y2 < h && (x2, y2) != (x, y)
    ensures got == c
    ensures other == Black
  {
    var canvas := new Canvas(w, h);
    canvas.IndexInBounds(x, y);
    canvas.IndexInBounds(x2, y2);
    canvas.IndexInjective(x, y, x2, y2);
    canvas.SetPixel(x, y, c);
    got := canvas.PixelAt(x, y);
    other := canvas.PixelAt(x2, y2);
  }
}
