/** The frame buffer, and the horizontal and vertical lines everything else is drawn with. */
module Display {

  datatype Point = Point(x: int, y: int)

  type Color = c: int | 0 <= c < 0x100_0000

  /** Conversion to `int16_t`. */
  function I16(v: int): int { (v + 0x8000) % 0x1_0000 - 0x8000 }

  predicate IsI16(v: int) { -0x8000 <= v <= 0x7FFF }

  lemma I16Fits(v: int)
    requires IsI16(v)
    ensures I16(v) == v
  {}

  lemma I16Twice(a: int, b: int)
    ensures I16(I16(a) + b) == I16(a + b)
  {}

  function Abs(v: int): nat { if v < 0 then -v else v }

  function Min(a: int, b: int): int { if a < b then a else b }

  function Max(a: int, b: int): int { if a < b then b else a }

  /** `after` is `before` with exactly the points of `area` in `color`. */
  ghost predicate Painted(before: map<Point, Color>, after: map<Point, Color>, area: iset<Point>, color: Color) {
    && (forall p :: p in after <==> p in before || p in area)
    && (forall p | p in after :: after[p] == if p in area then color else before[p])
  }

  lemma PaintedTwice(a: map<Point, Color>, b: map<Point, Color>, c: map<Point, Color>, s: iset<Point>,
      t: iset<Point>, color: Color)
    requires Painted(a, b, s, color) && Painted(b, c, t, color)
    ensures Painted(a, c, s + t, color)
  {}

  ghost function HSpan(x: int, y: int, w: nat): iset<Point> { iset p: Point | p.y == y && x <= p.x < x + w }

  ghost function VSpan(x: int, y: int, h: nat): iset<Point> { iset p: Point | p.x == x && y <= p.y < y + h }

  class Disp {
    var pixels: map<Point, Color>
    ghost var rows: seq<int>   // the scanlines drawn by FastHLine, in order

    constructor ()
      ensures pixels == map[] && rows == []
    {
      pixels, rows := map[], [];
    }

    method SetPixel(x: int, y: int, color: Color)
      modifies this`pixels
      ensures pixels == old(pixels)[Point(x, y) := color]
    {
      pixels := pixels[Point(x, y) := color];
    }

    /** `fastVLine`: from the bottom up. */
    method FastVLine(x: int, y: int, h: nat, color: Color)
      modifies this`pixels
      ensures Painted(old(pixels), pixels, VSpan(x, y, h), color)
    {
      var left: nat := h;
      while left != 0
        invariant left <= h
        invariant Painted(old(pixels), pixels, VSpan(x, y + left, h - left), color)
      {
        left := left - 1;
        SetPixel(x, y + left, color);
      }
    }

    /** `fastHLine`: from right to left. */
    method FastHLine(x: int, y: int, w: nat, color: Color)
      modifies this
      ensures Painted(old(pixels), pixels, HSpan(x, y, w), color)
      ensures rows == old(rows) + [y]
    {
      var left: nat := w;
      while left != 0
        invariant left <= w
        invariant Painted(old(pixels), pixels, HSpan(x + left, y, w - left), color)
        invariant rows == old(rows)
      {
        left := left - 1;
        SetPixel(x + left, y, color);
      }
      rows := rows + [y];
    }
  }
}
