/**
 * What `Triangle.Area` is, told by the three corners alone: the closed triangle, up to less than a pixel along
 * a scanline.
 */
module TriangleShape {
  import opened Display
  import opened Triangle

  // ---------------------------------------------------------------- the closed triangle

  /** On which side of the line from p to q the point (x, y) lies. */
  function Side(p: Point, q: Point, x: real, y: int): real {
    (q.x - p.x) as real * (y - p.y) as real - (q.y - p.y) as real * (x - p.x as real)
  }

  /** All three edges, walked around, have the point on the same side, or on the edge itself. */
  predicate Within(t: Corners, x: real, y: int) {
    || (Side(t.a, t.b, x, y) >= 0.0 && Side(t.b, t.c, x, y) >= 0.0 && Side(t.c, t.a, x, y) >= 0.0)
    || (Side(t.a, t.b, x, y) <= 0.0 && Side(t.b, t.c, x, y) <= 0.0 && Side(t.c, t.a, x, y) <= 0.0)
  }

  predicate InBox(t: Corners, x: real, y: int) {
    && Low3(t) as real <= x <= High3(t) as real
    && Min(t.a.y, Min(t.b.y, t.c.y)) <= y <= Max(t.a.y, Max(t.b.y, t.c.y))
  }

  /** The closed triangle. The box matters only where the corners lie on one line. */
  predicate InClosed(t: Corners, x: real, y: int) { Within(t, x, y) && InBox(t, x, y) }

  // ---------------------------------------------------------------- one edge

  /** Where an edge crosses a scanline. */
  function Crossing(a: Point, b: Point, y: int): real
    requires a.y < b.y
  {
    a.x as real + (b.x - a.x) as real * (y - a.y) as real / (b.y - a.y) as real
  }

  lemma QuotientTimes(n: real, d: real)
    requires d > 0.0
    ensures d * (n / d) == n
  {}

  lemma CrossingIs(a: Point, b: Point, y: int)
    requires a.y < b.y
    ensures (b.y - a.y) as real * (Crossing(a, b, y) - a.x as real) == (b.x - a.x) as real * (y - a.y) as real
  {
    QuotientTimes((b.x - a.x) as real * (y - a.y) as real, (b.y - a.y) as real);
  }

  lemma Distributes(d: real, p: real, q: real, x: real)
    ensures d * (p - q) == d * (p - x) - d * (q - x)
  {}

  /** The side of a point is its distance from the crossing. */
  lemma SideIsDistance(a: Point, b: Point, x: real, y: int)
    requires a.y < b.y
    ensures Side(a, b, x, y) == (b.y - a.y) as real * (Crossing(a, b, y) - x)
  {
    hide Crossing;
    CrossingIs(a, b, y);
    Distributes((b.y - a.y) as real, Crossing(a, b, y), x, a.x as real);
  }

  lemma SideReversed(p: Point, q: Point, x: real, y: int)
    ensures Side(q, p, x, y) == -Side(p, q, x, y)
  {
    var u, v := (q.x - p.x) as real, (q.y - p.y) as real;
    var w, z := (y - p.y) as real, x - p.x as real;
    assert (y - q.y) as real == w - v && x - q.x as real == z - u;
    assert -u * (w - v) - (-v) * (z - u) == -(u * w - v * z);
  }

  lemma EdgeInReals(a: Point, b: Point, y: int)
    requires a.y < b.y
    ensures var d, v := (b.y - a.y) as real, (Edge(a, b, y) - a.x) as real;
            -d < d * v - (b.x - a.x) as real * (y - a.y) as real < d
  {
    hide Edge;
    EdgeIsNear(a, b, y);
    RealProduct(b.y - a.y, Edge(a, b, y) - a.x);
    RealProduct(b.x - a.x, y - a.y);
  }

  /** The rounded crossing is less than a pixel off. */
  lemma EdgeNearCrossing(a: Point, b: Point, y: int)
    requires a.y < b.y
    ensures -1.0 < Edge(a, b, y) as real - Crossing(a, b, y) < 1.0
  {
    hide Edge, Crossing;
    EdgeInReals(a, b, y);
    CrossingIs(a, b, y);
    var v, q := (Edge(a, b, y) - a.x) as real, Crossing(a, b, y) - a.x as real;
    NearTimes((b.y - a.y) as real, v, q, (b.x - a.x) as real * (y - a.y) as real);
  }

  lemma NearTimes(d: real, v: real, q: real, n: real)
    requires d > 0.0 && -d < d * v - n < d && d * q == n
    ensures -1.0 < v - q < 1.0
  {
    Distances(d, v, q, d * v, n);
  }

  lemma Distances(d: real, v: real, q: real, m: real, n: real)
    requires d > 0.0 && d * v == m && d * q == n
    ensures -d < m - n < d ==> -1.0 < v - q < 1.0
  {
    if v - q >= 1.0 {
      Apart(d, v, q, m, n);
    }
    if q - v >= 1.0 {
      Apart(d, q, v, n, m);
    }
  }

  lemma Apart(d: real, v: real, q: real, m: real, n: real)
    requires d > 0.0 && d * v == m && d * q == n && v - q >= 1.0
    ensures m - n >= d
  {
    TimesGrows(d, q + 1.0, v);
    assert d * (q + 1.0) == n + d;
  }

  lemma RealProduct(a: int, b: int)
    ensures (a * b) as real == a as real * b as real
  {}

  lemma TimesGrows(d: real, a: real, b: real)
    requires d >= 0.0 && a <= b
    ensures d * a <= d * b
  {
    assert d * (b - a) >= 0.0;
  }

  /** A crossing lies between the ends of its edge. */
  lemma CrossingBetween(a: Point, b: Point, y: int)
    requires a.y < b.y && a.y <= y <= b.y
    ensures Min(a.x, b.x) as real <= Crossing(a, b, y) <= Max(a.x, b.x) as real
  {
    hide Crossing;
    CrossingIs(a, b, y);
    Share((b.x - a.x) as real, (y - a.y) as real, (b.y - a.y) as real, Crossing(a, b, y) - a.x as real);
  }

  lemma Share(u: real, e: real, d: real, q: real)
    requires 0.0 <= e <= d && d > 0.0 && d * q == u * e
    ensures if u >= 0.0 then 0.0 <= q <= u else u <= q <= 0.0
  {
    if u >= 0.0 {
      TimesGrows(u, 0.0, e);
      TimesGrows(u, e, d);
    } else {
      TimesGrows(-u, 0.0, e);
      TimesGrows(-u, e, d);
    }
    SameSign(d, q);
    SameSign(d, u - q);
  }

  lemma SameSign(d: real, v: real)
    requires d > 0.0
    ensures d * v >= 0.0 <==> v >= 0.0
    ensures d * v <= 0.0 <==> v <= 0.0
  {}

  // ---------------------------------------------------------------- one scanline

  predicate Between(p: real, x: real, q: real) { p <= x <= q || q <= x <= p }

  /** The third side of the upper part, at the crossing of the first and elsewhere. */
  lemma UpperAlgebra(u: real, w: real, e: real, d1: real, d2: real, p: real, q: real, x: real)
    requires d1 * p == u * e && d2 * q == w * e
    ensures d1 * d2 * (p - q) == e * (u * d2 - d1 * w)
    ensures d1 * ((w - u) * (e - d1) - (d2 - d1) * (p - u)) == (d1 - e) * (u * d2 - d1 * w)
    ensures (w - u) * (e - d1) - (d2 - d1) * (x - u) ==
            (w - u) * (e - d1) - (d2 - d1) * (p - u) + (d2 - d1) * (p - x)
  {
    assert d1 * d2 * (p - q) == d2 * (d1 * p) - d1 * (d2 * q);
    assert d1 * ((d2 - d1) * (p - u)) == (d2 - d1) * (d1 * p) - (d2 - d1) * (d1 * u);
  }

  /** Between the crossings, the third side has the sign of the difference of the crossings. */
  lemma ThirdSide(d1: real, d2: real, e: real, area: real, gap: real, atP: real, rest: real)
    requires d1 > 0.0 && d2 >= d1 && 0.0 <= e <= d1
    requires d1 * d2 * gap == e * area && d1 * atP == (d1 - e) * area
    requires (gap > 0.0 && rest >= 0.0) || (gap < 0.0 && rest <= 0.0)
    ensures gap > 0.0 ==> atP + (d2 - d1) * rest >= 0.0
    ensures gap < 0.0 ==> atP + (d2 - d1) * rest <= 0.0
  {
    SameSign(d1, d2 * gap);
    SameSign(d2, gap);
    assert d1 * (d2 * gap) == e * area;
    if gap > 0.0 {
      assert area > 0.0 by { if area <= 0.0 { TimesGrows(e, area, 0.0); } }
      TimesGrows(d1 - e, 0.0, area);
      TimesGrows(d2 - d1, 0.0, rest);
    } else {
      assert area < 0.0 by { if area >= 0.0 { TimesGrows(e, 0.0, area); } }
      TimesGrows(d1 - e, area, 0.0);
      TimesGrows(d2 - d1, rest, 0.0);
    }
    SameSign(d1, atP);
  }

  /** Which points have the three sides on one side, given the sides' distances. */
  lemma SidesAgree(d1: real, d2: real, e: real, area: real, p: real, q: real, x: real, ab: real, bc: real, ca: real,
      atP: real)
    requires d1 > 0.0 && d2 >= d1 && 0.0 <= e <= d1
    requires ab == d1 * (p - x) && ca == -(d2 * (q - x)) && bc == atP + (d2 - d1) * (p - x)
    requires d1 * d2 * (p - q) == e * area && d1 * atP == (d1 - e) * area
    ensures (ab >= 0.0 && bc >= 0.0 && ca >= 0.0) || (ab <= 0.0 && bc <= 0.0 && ca <= 0.0) <==> Between(p, x, q)
  {
    SameSign(d1, p - x);
    SameSign(d2, q - x);
    if Between(p, x, q) && p != q {
      ThirdSide(d1, d2, e, area, p - q, atP, p - x);
    }
  }

  /** Above the middle corner, the triangle is what lies between the first side and the long one. */
  lemma UpperScan(s: Corners, x: real, y: int)
    requires s.a.y <= y <= s.b.y <= s.c.y && s.a.y < s.b.y
    ensures Within(s, x, y) <==> Between(Crossing(s.a, s.b, y), x, Crossing(s.a, s.c, y))
  {
    hide Between, Side, Crossing, AreaOf;
    var p, q := Crossing(s.a, s.b, y), Crossing(s.a, s.c, y);
    SideIsDistance(s.a, s.b, x, y);
    SideIsDistance(s.a, s.c, x, y);
    SideReversed(s.a, s.c, x, y);
    UpperSides(s, x, y);
    var d1, d2, e := (s.b.y - s.a.y) as real, (s.c.y - s.a.y) as real, (y - s.a.y) as real;
    SidesAgree(d1, d2, e, AreaOf(s), p, q, x, Side(s.a, s.b, x, y), Side(s.b, s.c, x, y), Side(s.c, s.a, x, y),
      Side(s.b, s.c, p, y));
  }

  function AreaOf(s: Corners): real {
    (s.b.x - s.a.x) as real * (s.c.y - s.a.y) as real - (s.b.y - s.a.y) as real * (s.c.x - s.a.x) as real
  }

  lemma UpperSides(s: Corners, x: real, y: int)
    requires s.a.y <= y <= s.b.y <= s.c.y && s.a.y < s.b.y
    ensures var p, q := Crossing(s.a, s.b, y), Crossing(s.a, s.c, y);
            var d1, d2, e := (s.b.y - s.a.y) as real, (s.c.y - s.a.y) as real, (y - s.a.y) as real;
            && d1 * d2 * (p - q) == e * AreaOf(s)
            && d1 * Side(s.b, s.c, p, y) == (d1 - e) * AreaOf(s)
            && Side(s.b, s.c, x, y) == Side(s.b, s.c, p, y) + (d2 - d1) * (p - x)
  {
    hide Crossing, Side;
    var p, q := Crossing(s.a, s.b, y), Crossing(s.a, s.c, y);
    var a := s.a.x as real;
    var u, w, e := (s.b.x - s.a.x) as real, (s.c.x - s.a.x) as real, (y - s.a.y) as real;
    var d1, d2 := (s.b.y - s.a.y) as real, (s.c.y - s.a.y) as real;
    CrossingIs(s.a, s.b, y);
    CrossingIs(s.a, s.c, y);
    UpperAlgebra(u, w, e, d1, d2, p - a, q - a, x - a);
    SideFrom(s, x, y);
    SideFrom(s, p, y);
  }

  /** The third side in terms of the first corner. */
  lemma SideFrom(s: Corners, x: real, y: int)
    ensures var u, w, e := (s.b.x - s.a.x) as real, (s.c.x - s.a.x) as real, (y - s.a.y) as real;
            var d1, d2 := (s.b.y - s.a.y) as real, (s.c.y - s.a.y) as real;
            Side(s.b, s.c, x, y) == (w - u) * (e - d1) - (d2 - d1) * (x - s.a.x as real - u)
  {}

  // ---------------------------------------------------------------- the lower part, upside down

  function Turned(p: Point): Point { Point(-p.x, -p.y) }

  /** The triangle turned by half a circle, its lowest corner first. */
  function TurnedCorners(s: Corners): Corners { Corners(Turned(s.c), Turned(s.b), Turned(s.a)) }

  lemma SideTurned(p: Point, q: Point, x: real, y: int)
    ensures Side(Turned(p), Turned(q), -x, -y) == Side(p, q, x, y)
  {
    var u, v := (q.x - p.x) as real, (q.y - p.y) as real;
    var w, z := (y - p.y) as real, x - p.x as real;
    assert (-u) * (-w) - (-v) * (-z) == u * w - v * z;
  }

  lemma WithinTurned(s: Corners, x: real, y: int)
    ensures Within(TurnedCorners(s), -x, -y) == Within(s, x, y)
  {
    hide Side;
    SideTurned(s.c, s.b, x, y);
    SideTurned(s.b, s.a, x, y);
    SideTurned(s.a, s.c, x, y);
    SideReversed(s.b, s.c, x, y);
    SideReversed(s.a, s.b, x, y);
    SideReversed(s.c, s.a, x, y);
  }

  lemma CrossingTurned(a: Point, b: Point, y: int)
    requires a.y < b.y
    ensures Crossing(Turned(b), Turned(a), -y) == -Crossing(a, b, y)
  {
    hide Crossing, Side;
    var p := Crossing(a, b, y);
    SideIsDistance(a, b, p, y);
    SideReversed(a, b, p, y);
    SideTurned(b, a, p, y);
    SideIsDistance(Turned(b), Turned(a), -p, -y);
    NoDistance((b.y - a.y) as real, Crossing(Turned(b), Turned(a), -y) + p);
  }

  lemma NoDistance(d: real, v: real)
    requires d > 0.0 && d * v == 0.0
    ensures v == 0.0
  {}

  /** Below it, what lies between the last side and the long one. */
  lemma LowerScan(s: Corners, x: real, y: int)
    requires s.a.y <= s.b.y <= y <= s.c.y && s.b.y < s.c.y
    ensures Within(s, x, y) <==> Between(Crossing(s.b, s.c, y), x, Crossing(s.a, s.c, y))
  {
    hide Within, Crossing;
    WithinTurned(s, x, y);
    UpperScan(TurnedCorners(s), -x, -y);
    CrossingTurned(s.b, s.c, y);
    CrossingTurned(s.a, s.c, y);
  }

  // ---------------------------------------------------------------- the painted area

  /** What `Short` rounds. */
  function ShortCrossing(s: Corners, y: int): real
    requires s.a.y <= s.b.y <= s.c.y && s.a.y <= y <= s.c.y && s.a.y < s.c.y
  {
    if y < s.b.y || s.b.y == s.c.y then Crossing(s.a, s.b, y) else Crossing(s.b, s.c, y)
  }

  lemma Scan(s: Corners, x: real, y: int)
    requires s.a.y <= s.b.y <= s.c.y && s.a.y <= y <= s.c.y && s.a.y < s.c.y
    ensures InClosed(s, x, y) <==> Between(ShortCrossing(s, y), x, Crossing(s.a, s.c, y))
  {
    hide Within, Crossing;
    CrossingBetween(s.a, s.c, y);
    if y < s.b.y || s.b.y == s.c.y {
      UpperScan(s, x, y);
      CrossingBetween(s.a, s.b, y);
    } else {
      LowerScan(s, x, y);
      CrossingBetween(s.b, s.c, y);
    }
  }

  /** A flat triangle is its box. */
  lemma FlatScan(s: Corners, x: real, y: int)
    requires s.a.y == s.b.y == s.c.y == y
    ensures InClosed(s, x, y) <==> Low3(s) as real <= x <= High3(s) as real
  {}

  lemma ShortNear(s: Corners, y: int)
    requires s.a.y <= s.b.y <= s.c.y && s.a.y <= y <= s.c.y && s.a.y < s.c.y
    ensures -1.0 < Short(s, y) as real - ShortCrossing(s, y) < 1.0
  {
    hide Edge, Crossing;
    if y < s.b.y || s.b.y == s.c.y {
      EdgeNearCrossing(s.a, s.b, y);
    } else {
      EdgeNearCrossing(s.b, s.c, y);
    }
  }

  /** Rounded ends keep every integer that was between the ends, and add none a whole pixel away. */
  lemma RoundedEnds(p: real, q: real, i: int, j: int, x: int)
    requires -1.0 < i as real - p < 1.0 && -1.0 < j as real - q < 1.0
    ensures Between(p, x as real, q) ==> Min(i, j) <= x <= Max(i, j)
    ensures Min(i, j) <= x <= Max(i, j) ==> var z := Nearest(p, q, x as real);
            Between(p, z, q) && -1.0 < z - x as real < 1.0
  {}

  /** The point between p and q next to x. */
  function Nearest(p: real, q: real, x: real): real {
    var low, high := if p < q then p else q, if p < q then q else p;
    if x < low then low else if x > high then high else x
  }

  lemma SortedPaints(s: Corners, p: Point)
    requires s.a.y <= s.b.y <= s.c.y
    ensures InClosed(s, p.x as real, p.y) ==> InTriangle(s, p)
    ensures InTriangle(s, p) ==> exists x: real :: InClosed(s, x, p.y) && -1.0 < x - p.x as real < 1.0
  {
    hide Edge, Crossing, Within, Short, ShortCrossing, Between, Nearest;
    if s.a.y <= p.y <= s.c.y {
      if s.a.y == s.c.y {
        FlatScan(s, p.x as real, p.y);
      } else {
        var y := p.y;
        var short, long := ShortCrossing(s, y), Crossing(s.a, s.c, y);
        Scan(s, p.x as real, y);
        ShortNear(s, y);
        EdgeNearCrossing(s.a, s.c, y);
        RoundedEnds(short, long, Short(s, y), Edge(s.a, s.c, y), p.x);
        Scan(s, Nearest(short, long, p.x as real), y);
      }
    }
  }

  lemma ClosedSwaps(t: Corners, x: real, y: int)
    ensures InClosed(Corners(t.b, t.a, t.c), x, y) == InClosed(t, x, y) == InClosed(Corners(t.a, t.c, t.b), x, y)
  {
    hide Side;
    SideReversed(t.a, t.b, x, y);
    SideReversed(t.b, t.c, x, y);
    SideReversed(t.c, t.a, x, y);
  }

  lemma ClosedSorted(t: Corners, x: real, y: int)
    ensures InClosed(Sorted(t), x, y) == InClosed(t, x, y)
  {
    hide InClosed;
    var t1 := if t.a.y > t.b.y then Corners(t.b, t.a, t.c) else t;
    var t2 := if t1.b.y > t1.c.y then Corners(t1.a, t1.c, t1.b) else t1;
    ClosedSwaps(t, x, y);
    ClosedSwaps(t1, x, y);
    ClosedSwaps(t2, x, y);
  }

  /** Every pixel of the closed triangle is painted, for corners in any order and place. */
  lemma TriangleIsPainted(t: Corners, p: Point)
    requires InClosed(t, p.x as real, p.y)
    ensures p in Area(t)
  {
    hide InClosed, InTriangle;
    ClosedSorted(t, p.x as real, p.y);
    SortedPaints(Sorted(t), p);
  }

  /** Every painted pixel is, along its scanline, less than a pixel away from the closed triangle. */
  lemma PaintedIsTriangle(t: Corners, p: Point)
    requires p in Area(t)
    ensures exists x: real :: InClosed(t, x, p.y) && -1.0 < x - p.x as real < 1.0
  {
    hide InClosed, InTriangle;
    SortedPaints(Sorted(t), p);
    var x: real :| InClosed(Sorted(t), x, p.y) && -1.0 < x - p.x as real < 1.0;
    ClosedSorted(t, x, p.y);
  }

  // ---------------------------------------------------------------- corners not on one line

  /** For a proper triangle the signs of the three sides alone decide. */
  lemma ProperNeedsNoBox(t: Corners, x: real, y: int)
    requires Side(t.a, t.b, t.c.x as real, t.c.y) != 0.0
    ensures Within(t, x, y) <==> InClosed(t, x, y)
  {
    hide Side;
    if Within(t, x, y) {
      var c, a, b := Side(t.a, t.b, x, y), Side(t.b, t.c, x, y), Side(t.c, t.a, x, y);
      SidesSum(t, x, y);
      if a >= 0.0 && b >= 0.0 && c >= 0.0 {
        Weighted(a, b, c, t.a.x as real, t.b.x as real, t.c.x as real, x);
        Weighted(a, b, c, t.a.y as real, t.b.y as real, t.c.y as real, y as real);
      } else {
        Weighted(-a, -b, -c, t.a.x as real, t.b.x as real, t.c.x as real, x);
        Weighted(-a, -b, -c, t.a.y as real, t.b.y as real, t.c.y as real, y as real);
      }
    }
  }

  /** The three sides are the weights of the corners. */
  lemma SidesSum(t: Corners, x: real, y: int)
    ensures var c, a, b := Side(t.a, t.b, x, y), Side(t.b, t.c, x, y), Side(t.c, t.a, x, y);
            && a + b + c == Side(t.a, t.b, t.c.x as real, t.c.y)
            && a * t.a.x as real + b * t.b.x as real + c * t.c.x as real == (a + b + c) * x
            && a * t.a.y as real + b * t.b.y as real + c * t.c.y as real == (a + b + c) * y as real
  {}

  lemma Weighted(a: real, b: real, c: real, u: real, v: real, w: real, x: real)
    requires a >= 0.0 && b >= 0.0 && c >= 0.0 && a + b + c > 0.0
    requires a * u + b * v + c * w == (a + b + c) * x
    ensures u <= x || v <= x || w <= x
    ensures u >= x || v >= x || w >= x
  {
    assert a * (u - x) + b * (v - x) + c * (w - x) == 0.0;
    if u > x && v > x && w > x {
      Positive(a, b, c, u - x, v - x, w - x);
    } else if u < x && v < x && w < x {
      Positive(a, b, c, x - u, x - v, x - w);
    }
  }

  lemma Positive(a: real, b: real, c: real, u: real, v: real, w: real)
    requires a >= 0.0 && b >= 0.0 && c >= 0.0 && a + b + c > 0.0 && u > 0.0 && v > 0.0 && w > 0.0
    ensures a * u + b * v + c * w > 0.0
  {
    TimesGrows(a, 0.0, u);
    TimesGrows(b, 0.0, v);
    TimesGrows(c, 0.0, w);
  }
}
