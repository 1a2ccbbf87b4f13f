/** `Disp::fillTriangle`: incremental edge sums against the edges written out. */
module Triangle {
  import opened Display
  import opened Division

  /** Where the edge from a to b crosses the scanline y. */
  function Edge(a: Point, b: Point, y: int): int
    requires a.y < b.y
  {
    a.x + TruncDiv((b.x - a.x) * (y - a.y), b.y - a.y)
  }

  // ---------------------------------------------------------------- the filled triangle

  datatype Corners = Corners(a: Point, b: Point, c: Point)

  /** The three exchanges that sort by y. */
  function Sorted(t: Corners): (s: Corners)
    ensures s.a.y <= s.b.y <= s.c.y
  {
    var t1 := if t.a.y > t.b.y then Corners(t.b, t.a, t.c) else t;
    var t2 := if t1.b.y > t1.c.y then Corners(t1.a, t1.c, t1.b) else t1;
    if t2.a.y > t2.b.y then Corners(t2.b, t2.a, t2.c) else t2
  }

  /** The shorter side that crosses scanline y, in a sorted triangle that is not flat. */
  function Short(s: Corners, y: int): int
    requires s.a.y <= s.b.y <= s.c.y && s.a.y <= y <= s.c.y && s.a.y < s.c.y
  {
    if y < s.b.y || s.b.y == s.c.y then Edge(s.a, s.b, y) else Edge(s.b, s.c, y)
  }

  function Low3(t: Corners): int { Min(t.a.x, Min(t.b.x, t.c.x)) }

  function High3(t: Corners): int { Max(t.a.x, Max(t.b.x, t.c.x)) }

  /** The ends of the scanline y. */
  function Ends(s: Corners, y: int): (int, int)
    requires s.a.y <= s.b.y <= s.c.y && s.a.y <= y <= s.c.y
  {
    if s.a.y == s.c.y then (Low3(s), High3(s))
    else
      var p, q := Short(s, y), Edge(s.a, s.c, y);
      (Min(p, q), Max(p, q))
  }

  predicate InTriangle(s: Corners, p: Point)
    requires s.a.y <= s.b.y <= s.c.y
  {
    s.a.y <= p.y <= s.c.y && Ends(s, p.y).0 <= p.x <= Ends(s, p.y).1
  }

  ghost function Area(t: Corners): iset<Point> { iset p: Point | InTriangle(Sorted(t), p) }

  // ---------------------------------------------------------------- edges

  /** The crossing is less than a pixel off the edge. */
  lemma EdgeIsNear(a: Point, b: Point, y: int)
    requires a.y < b.y
    ensures Abs((b.y - a.y) * (Edge(a, b, y) - a.x) - (b.x - a.x) * (y - a.y)) < b.y - a.y
  {
    var n, d := (b.x - a.x) * (y - a.y), b.y - a.y;
    Euclid(n, d);
    Euclid(-n, d);
    assert d * -((-n) / d) == -(d * ((-n) / d));
  }

  lemma EdgeAtEnds(a: Point, b: Point)
    requires a.y < b.y
    ensures Edge(a, b, a.y) == a.x && Edge(a, b, b.y) == b.x
  {
    var d := b.y - a.y;
    assert (b.x - a.x) * (a.y - a.y) == 0;
    ExactDiv(b.x - a.x, d);
  }

  lemma ExactDiv(n: int, d: int)
    requires d > 0
    ensures TruncDiv(n * d, d) == n
  {
    QuotientIs(n * d, d, n, 0);
    QuotientIs(-(n * d), d, -n, 0);
  }

  /** Between the ends, the crossing is between them too. */
  lemma EdgeBetween(a: Point, b: Point, y: int)
    requires a.y < b.y && a.y <= y <= b.y
    ensures Min(a.x, b.x) <= Edge(a, b, y) <= Max(a.x, b.x)
  {
    var dx, d, k := b.x - a.x, b.y - a.y, y - a.y;
    var m := Abs(dx);
    MulLe(m, 0, k);
    MulLe(m, k, d);
    QuotientIs(m * d, d, m, 0);
    DivMono(m * k, m * d, d);
    QuotientIs(0, d, 0, 0);
    DivMono(0, m * k, d);
    if dx < 0 {
      assert m * k == -(dx * k);
    }
  }

  // ---------------------------------------------------------------- the area

  lemma EndsInBox(s: Corners, y: int)
    requires s.a.y <= s.b.y <= s.c.y && s.a.y <= y <= s.c.y
    ensures Low3(s) <= Ends(s, y).0 <= Ends(s, y).1 <= High3(s)
  {
    hide Edge;
    if s.a.y < s.c.y {
      EdgeBetween(s.a, s.c, y);
      if y < s.b.y || s.b.y == s.c.y {
        EdgeBetween(s.a, s.b, y);
      } else {
        EdgeBetween(s.b, s.c, y);
      }
    }
  }

  /** Nothing is painted outside the bounding box, and no scanline between the corners is left empty. */
  lemma AreaInBox(t: Corners, p: Point)
    requires p in Area(t)
    ensures Low3(t) <= p.x <= High3(t)
    ensures Min(t.a.y, Min(t.b.y, t.c.y)) <= p.y <= Max(t.a.y, Max(t.b.y, t.c.y))
  {
    hide Ends;
    EndsInBox(Sorted(t), p.y);
  }

  /** All three corners are painted. */
  lemma CornersPainted(t: Corners)
    ensures t.a in Area(t) && t.b in Area(t) && t.c in Area(t)
  {
    var s := Sorted(t);
    SortedCornersPainted(s);
    assert {t.a, t.b, t.c} == {s.a, s.b, s.c};
  }

  lemma SortedCornersPainted(s: Corners)
    requires s.a.y <= s.b.y <= s.c.y
    ensures InTriangle(s, s.a) && InTriangle(s, s.b) && InTriangle(s, s.c)
  {
    hide Edge;
    if s.a.y < s.c.y {
      EdgeAtEnds(s.a, s.c);
      if s.a.y < s.b.y {
        EdgeAtEnds(s.a, s.b);
      }
      if s.b.y < s.c.y {
        EdgeAtEnds(s.b, s.c);
      }
    }
  }

  /** Which corner comes first makes no difference. */
  lemma AnyOrder(a: Point, b: Point, c: Point)
    ensures Area(Corners(a, b, c)) == Area(Corners(b, a, c)) == Area(Corners(a, c, b)) == Area(Corners(c, b, a))
    ensures Area(Corners(a, b, c)) == Area(Corners(b, c, a)) == Area(Corners(c, a, b))
  {
    SwapFirst(a, b, c);
    SwapLast(a, b, c);
    SwapLast(b, a, c);
    SwapFirst(b, c, a);
    SwapFirst(a, c, b);
  }

  /** Corners on the same scanline may change places. */
  lemma LowTie(s: Corners, p: Point)
    requires s.a.y == s.b.y <= s.c.y
    ensures InTriangle(s, p) == InTriangle(Corners(s.b, s.a, s.c), p)
  {
    hide Edge;
    var t := Corners(s.b, s.a, s.c);
    assert Low3(s) == Low3(t) && High3(s) == High3(t);
    if s.a.y < s.c.y && s.a.y <= p.y <= s.c.y {
      assert Short(s, p.y) == Edge(s.b, s.c, p.y) && Short(t, p.y) == Edge(s.a, s.c, p.y);
    }
  }

  lemma HighTie(s: Corners, p: Point)
    requires s.a.y <= s.b.y == s.c.y
    ensures InTriangle(s, p) == InTriangle(Corners(s.a, s.c, s.b), p)
  {
    hide Edge;
    var t := Corners(s.a, s.c, s.b);
    assert Low3(s) == Low3(t) && High3(s) == High3(t);
    if s.a.y < s.c.y && s.a.y <= p.y <= s.c.y {
      assert Short(s, p.y) == Edge(s.a, s.b, p.y) && Short(t, p.y) == Edge(s.a, s.c, p.y);
    }
  }

  /** Two sorted arrangements of the same corners have the same ends. */
  lemma TiesDoNotMatter(s: Corners, t: Corners)
    requires s.a.y <= s.b.y <= s.c.y && t.a.y <= t.b.y <= t.c.y
    requires s == t || t == Corners(s.b, s.a, s.c) || t == Corners(s.a, s.c, s.b)
    ensures forall p :: InTriangle(s, p) == InTriangle(t, p)
  {
    hide InTriangle;
    forall p ensures InTriangle(s, p) == InTriangle(t, p) {
      if t == Corners(s.b, s.a, s.c) {
        LowTie(s, p);
      } else if t == Corners(s.a, s.c, s.b) {
        HighTie(s, p);
      }
    }
  }

  lemma SwapFirst(a: Point, b: Point, c: Point)
    ensures Area(Corners(a, b, c)) == Area(Corners(b, a, c))
  {
    hide InTriangle;
    TiesDoNotMatter(Sorted(Corners(a, b, c)), Sorted(Corners(b, a, c)));
  }

  lemma SwapLast(a: Point, b: Point, c: Point)
    ensures Area(Corners(a, b, c)) == Area(Corners(a, c, b))
  {
    hide InTriangle;
    TiesDoNotMatter(Sorted(Corners(a, b, c)), Sorted(Corners(a, c, b)));
  }

  // ---------------------------------------------------------------- drawing

  /** The rows of the area above scanline n. */
  ghost function AreaAbove(s: Corners, n: int): iset<Point>
    requires s.a.y <= s.b.y <= s.c.y
  {
    iset p: Point | InTriangle(s, p) && p.y < n
  }

  ghost function Row(s: Corners, y: int): iset<Point>
    requires s.a.y <= s.b.y <= s.c.y && s.a.y <= y <= s.c.y
  {
    HSpan(Ends(s, y).0, y, SpanWidth(s, y))
  }

  function SpanWidth(s: Corners, y: int): nat
    requires s.a.y <= s.b.y <= s.c.y && s.a.y <= y <= s.c.y
  {
    EndsInBox(s, y);
    Ends(s, y).1 - Ends(s, y).0 + 1
  }

  lemma NextRow(s: Corners, y: int)
    requires s.a.y <= s.b.y <= s.c.y && s.a.y <= y <= s.c.y
    ensures AreaAbove(s, y) + Row(s, y) == AreaAbove(s, y + 1)
  {
    hide Ends;
  }

  lemma AllRows(s: Corners)
    requires s.a.y <= s.b.y <= s.c.y
    ensures AreaAbove(s, s.c.y + 1) == iset p: Point | InTriangle(s, p)
    ensures AreaAbove(s, s.a.y) == iset{}
  {
    hide Ends;
  }

  function Lines(from: int, to: int): seq<int>
    requires from <= to
  {
    seq(to - from, i => from + i)
  }

  /** Coordinates, and differences of coordinates, that fit 16 bits, and a scanline left below the last. */
  predicate Drawable(t: Corners) {
    && IsI16(t.a.x) && IsI16(t.b.x) && IsI16(t.c.x) && IsI16(t.a.y) && IsI16(t.b.y) && IsI16(t.c.y)
    && High3(t) - Low3(t) <= 0x7FFF
    && Max(t.a.y, Max(t.b.y, t.c.y)) - Min(t.a.y, Min(t.b.y, t.c.y)) <= 0x7FFF
    && Max(t.a.y, Max(t.b.y, t.c.y)) < 0x7FFF
  }

  /** Conversion to `int32_t`. */
  function I32(v: int): int { (v + 0x8000_0000) % 0x1_0000_0000 - 0x8000_0000 }

  lemma SumFits(dx: int, n: int)
    requires -0x7FFF <= dx <= 0x7FFF && 0 <= n <= 0x8000
    ensures I32(dx * n) == dx * n
  {
    MulLe(n, dx, 0x7FFF);
    MulLe(n, -0x7FFF, dx);
    assert n * dx == dx * n;
  }

  /** The next sum, without an overflow. */
  lemma SumStep(dx: int, n: int)
    requires -0x7FFF <= dx <= 0x7FFF && 0 <= n < 0x8000
    ensures I32(dx * n + dx) == dx * (n + 1)
  {
    hide I32;
    MulNext(dx, n);
    SumFits(dx, n + 1);
  }

  lemma DifferencesFit(s: Corners)
    requires Drawable(s)
    ensures I16(s.b.x - s.a.x) == s.b.x - s.a.x && I16(s.c.x - s.a.x) == s.c.x - s.a.x &&
            I16(s.c.x - s.b.x) == s.c.x - s.b.x
    ensures I16(s.b.y - s.a.y) == s.b.y - s.a.y && I16(s.c.y - s.a.y) == s.c.y - s.a.y &&
            I16(s.c.y - s.b.y) == s.c.y - s.b.y
    ensures Abs(s.b.x - s.a.x) <= 0x7FFF && Abs(s.c.x - s.a.x) <= 0x7FFF && Abs(s.c.x - s.b.x) <= 0x7FFF
    ensures Abs(s.c.y - s.a.y) <= 0x7FFF
  {
    hide I16;
    I16Fits(s.b.x - s.a.x);
    I16Fits(s.c.x - s.a.x);
    I16Fits(s.c.x - s.b.x);
    I16Fits(s.b.y - s.a.y);
    I16Fits(s.c.y - s.a.y);
    I16Fits(s.c.y - s.b.y);
  }

  /** The crossings of a row of the triangle, and the row after it, fit 16 bits. */
  lemma CrossingsFit(s: Corners, y: int)
    requires s.a.y <= s.b.y <= s.c.y && s.a.y <= y <= s.c.y && s.a.y < s.c.y && Drawable(s)
    ensures I16(Short(s, y)) == Short(s, y) && I16(Edge(s.a, s.c, y)) == Edge(s.a, s.c, y) && I16(y + 1) == y + 1
  {
    hide Edge;
    EndsInBox(s, y);
    EdgeBetween(s.a, s.c, y);
  }

  /** What the loops add up, divided, is the crossing written out. */
  lemma UpperCrossings(s: Corners, y: int, sa: int, sb: int)
    requires s.a.y <= s.b.y <= s.c.y && s.a.y <= y <= s.c.y && s.a.y < s.c.y && Drawable(s)
    requires y < s.b.y || s.b.y == s.c.y
    requires sa == (s.b.x - s.a.x) * (y - s.a.y) && sb == (s.c.x - s.a.x) * (y - s.a.y)
    ensures I16(s.a.x + TruncDiv(sa, s.b.y - s.a.y)) == Short(s, y)
    ensures I16(s.a.x + TruncDiv(sb, s.c.y - s.a.y)) == Edge(s.a, s.c, y)
    ensures I16(y + 1) == y + 1
  {
    hide TruncDiv, I16, Drawable;
    CrossingsFit(s, y);
  }

  lemma LowerCrossings(s: Corners, y: int, sa: int, sb: int)
    requires s.a.y <= s.b.y < s.c.y && s.b.y <= y <= s.c.y && Drawable(s)
    requires sa == (s.c.x - s.b.x) * (y - s.b.y) && sb == (s.c.x - s.a.x) * (y - s.a.y)
    ensures I16(s.b.x + TruncDiv(sa, s.c.y - s.b.y)) == Short(s, y)
    ensures I16(s.a.x + TruncDiv(sb, s.c.y - s.a.y)) == Edge(s.a, s.c, y)
    ensures I16(y + 1) == y + 1
  {
    hide TruncDiv, I16, Drawable;
    CrossingsFit(s, y);
  }

  /** One scanline between two crossings. */
  method DrawRow(d: Disp, ghost s: Corners, a: int, b: int, y: int, color: Color, ghost before: map<Point, Color>,
      ghost rows: seq<int>)
    requires s.a.y <= s.b.y <= s.c.y && s.a.y <= y <= s.c.y && s.a.y < s.c.y
    requires a == Short(s, y) && b == Edge(s.a, s.c, y)
    requires Painted(before, d.pixels, AreaAbove(s, y), color) && d.rows == rows + Lines(s.a.y, y)
    modifies d
    ensures Painted(before, d.pixels, AreaAbove(s, y + 1), color) && d.rows == rows + Lines(s.a.y, y + 1)
  {
    hide Painted, Short, Edge, AreaAbove;
    EndsInBox(s, y);
    NextRow(s, y);
    ghost var was := d.pixels;
    var left, right := if a > b then b else a, if a > b then a else b;
    d.FastHLine(left, y, right - left + 1, color);
    PaintedTwice(before, was, d.pixels, AreaAbove(s, y), Row(s, y), color);
    assert Lines(s.a.y, y + 1) == Lines(s.a.y, y) + [y];
  }

  method DrawFlat(d: Disp, s: Corners, color: Color)
    requires s.a.y == s.b.y == s.c.y
    modifies d
    ensures Painted(old(d.pixels), d.pixels, AreaAbove(s, s.c.y + 1), color) &&
            d.rows == old(d.rows) + Lines(s.a.y, s.c.y + 1)
  {
    var x1, x2, y0 := s.b.x, s.c.x, s.a.y;
    var a, b := s.a.x, s.a.x;
    if x1 < a {
      a := x1;
    } else if x1 > b {
      b := x1;
    }
    if x2 < a {
      a := x2;
    } else if x2 > b {
      b := x2;
    }
    d.FastHLine(a, y0, b - a + 1, color);
    assert HSpan(a, y0, b - a + 1) == AreaAbove(s, y0 + 1);
    assert Lines(y0, y0 + 1) == [y0];
  }

  /** `fillTriangle`: the whole area and nothing else, every scanline from the top to the bottom corner once. */
  method FillTriangle(d: Disp, t: Corners, color: Color)
    requires Drawable(t)
    modifies d
    ensures Painted(old(d.pixels), d.pixels, Area(t), color)
    ensures d.rows == old(d.rows) + Lines(Min(t.a.y, Min(t.b.y, t.c.y)), Max(t.a.y, Max(t.b.y, t.c.y)) + 1)
  {
    hide Painted, InTriangle, Edge, AreaAbove;
    var s := t;
    if s.a.y > s.b.y {
      s := Corners(s.b, s.a, s.c);
    }
    if s.b.y > s.c.y {
      s := Corners(s.a, s.c, s.b);
    }
    if s.a.y > s.b.y {
      s := Corners(s.b, s.a, s.c);
    }
    AllRows(s);
    assert Area(t) == iset p: Point | InTriangle(s, p);
    if s.a.y == s.c.y {
      DrawFlat(d, s, color);
      return;
    }
    FillSorted(d, s, color);
  }

  method FillSorted(d: Disp, s: Corners, color: Color)
    requires s.a.y <= s.b.y <= s.c.y && s.a.y < s.c.y && Drawable(s)
    modifies d
    ensures Painted(old(d.pixels), d.pixels, AreaAbove(s, s.c.y + 1), color)
    ensures d.rows == old(d.rows) + Lines(s.a.y, s.c.y + 1)
  {
    hide Painted, AreaAbove;
    AllRows(s);
    NothingPainted(d.pixels, color);
    var y := FillUpper(d, s, color);
    FillLower(d, s, y, color, old(d.pixels), old(d.rows));
  }

  /** The scanlines between the sides 0-1 and 0-2. */
  method FillUpper(d: Disp, s: Corners, color: Color) returns (y: int)
    requires s.a.y <= s.b.y <= s.c.y && s.a.y < s.c.y && Drawable(s)
    requires Painted(d.pixels, d.pixels, AreaAbove(s, s.a.y), color)
    modifies d
    ensures y == if s.b.y == s.c.y then s.c.y + 1 else s.b.y
    ensures Painted(old(d.pixels), d.pixels, AreaAbove(s, y), color) && d.rows == old(d.rows) + Lines(s.a.y, y)
  {
    hide Painted, InTriangle, AreaAbove, TruncDiv, Ends, I16, I32, Drawable, Short, Edge, IsI16;
    DifferencesFit(s);
    var x0, y0, y1 := s.a.x, s.a.y, s.b.y;
    var dx01, dy01, dx02, dy02 := I16(s.b.x - x0), I16(y1 - y0), I16(s.c.x - x0), I16(s.c.y - y0);
    var sa, sb := 0, 0;
    var last := if y1 == s.c.y then y1 else y1 - 1;
    y := y0;
    while y <= last
      invariant y0 <= y <= last + 1
      invariant sa == dx01 * (y - y0) && sb == dx02 * (y - y0)
      invariant Painted(old(d.pixels), d.pixels, AreaAbove(s, y), color) && d.rows == old(d.rows) + Lines(y0, y)
    {
      UpperCrossings(s, y, sa, sb);
      var a := I16(x0 + TruncDiv(sa, dy01));
      var b := I16(x0 + TruncDiv(sb, dy02));
      SumStep(dx01, y - y0);
      SumStep(dx02, y - y0);
      sa := I32(sa + dx01);
      sb := I32(sb + dx02);
      DrawRow(d, s, a, b, y, color, old(d.pixels), old(d.rows));
      y := I16(y + 1);
    }
  }

  /** The scanlines between the sides 1-2 and 0-2. */
  method FillLower(d: Disp, s: Corners, from: int, color: Color, ghost before: map<Point, Color>, ghost rows: seq<int>)
    requires s.a.y <= s.b.y <= s.c.y && s.a.y < s.c.y && Drawable(s)
    requires from == if s.b.y == s.c.y then s.c.y + 1 else s.b.y
    requires Painted(before, d.pixels, AreaAbove(s, from), color) && d.rows == rows + Lines(s.a.y, from)
    modifies d
    ensures Painted(before, d.pixels, AreaAbove(s, s.c.y + 1), color) && d.rows == rows + Lines(s.a.y, s.c.y + 1)
  {
    hide Painted, InTriangle, AreaAbove, TruncDiv, Ends, I16, I32, Drawable, Short, Edge, Lines, IsI16;
    DifferencesFit(s);
    var x0, y0, x1, y1, y2 := s.a.x, s.a.y, s.b.x, s.b.y, s.c.y;
    var dx02, dy02, dx12, dy12 := I16(s.c.x - x0), I16(y2 - y0), I16(s.c.x - x1), I16(y2 - y1);
    SumFits(dx12, from - y1);
    SumFits(dx02, from - y0);
    var sa, sb, y := I32(dx12 * (from - y1)), I32(dx02 * (from - y0)), from;
    while y <= y2
      invariant from <= y <= y2 + 1
      invariant sa == dx12 * (y - y1) && sb == dx02 * (y - y0)
      invariant Painted(before, d.pixels, AreaAbove(s, y), color) && d.rows == rows + Lines(y0, y)
    {
      LowerCrossings(s, y, sa, sb);
      var a := I16(x1 + TruncDiv(sa, dy12));
      var b := I16(x0 + TruncDiv(sb, dy02));
      SumStep(dx12, y - y1);
      SumStep(dx02, y - y0);
      sa := I32(sa + dx12);
      sb := I32(sb + dx02);
      DrawRow(d, s, a, b, y, color, before, rows);
      y := I16(y + 1);
    }
  }

  lemma NothingPainted(pixels: map<Point, Color>, color: Color)
    ensures Painted(pixels, pixels, iset{}, color)
  {}
}
