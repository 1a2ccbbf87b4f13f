/** `Disp::circle`: exactly the pixels nearest to the circle in every octant. */
module Circle {
  import opened Display

  /** The second coordinate of the pixel nearest to the circle on its line: x is the root of r² - y², rounded. */
  predicate OnArc(r: nat, x: int, y: int) {
    && 0 <= y <= x
    && (if r == 0 then x == 0 else x * (x - 1) < r * r - y * y <= x * (x + 1))
  }

  /** A pixel whose offsets from the centre, whatever their signs and order, lie on the arc. */
  predicate InCircle(x0: int, y0: int, r: nat, p: Point) {
    var a, b := Abs(p.x - x0), Abs(p.y - y0);
    OnArc(r, Max(a, b), Min(a, b))
  }

  ghost function CirclePoints(x0: int, y0: int, r: nat): iset<Point> { iset p: Point | InCircle(x0, y0, r, p) }

  /** The part of the circle whose smaller offset is below `n`. */
  ghost function CircleBelow(x0: int, y0: int, r: nat, n: int): iset<Point> {
    iset p: Point | InCircle(x0, y0, r, p) && Min(Abs(p.x - x0), Abs(p.y - y0)) < n
  }

  function Error(r: nat, x: int, y: int): int { x * x + y * y - r * r - x }

  lemma Products(x: int)
    ensures x * (x - 1) == x * x - x && x * (x + 1) == x * x + x && (x - 1) * (x - 1) == x * x - 2 * x + 1
    ensures (x + 1) * (x + 1) == x * x + 2 * x + 1
  {}

  /** The distance from the circle: |x² + y² - r²| <= x. */
  lemma ArcIsNear(r: nat, x: int, y: int)
    requires OnArc(r, x, y)
    ensures Abs(x * x + y * y - r * r) <= x
  {
    Products(x);
  }

  lemma SquareMono(a: int, b: int)
    requires 0 <= a <= b
    ensures a * a <= b * b
  {}

  /** On every line there is at most one such pixel, and further out it never moves outwards. */
  lemma ArcUnique(r: nat, x: int, y: int, x': int, y': int)
    requires r > 0 && OnArc(r, x, y) && OnArc(r, x', y') && y <= y'
    ensures x' <= x
  {
    SquareMono(y, y');
    if x' > x {
      ProductMono(x + 1, x');
    }
  }

  lemma ProductMono(a: int, b: int)
    requires 1 <= a <= b
    ensures b * (b - 1) >= a * (a - 1)
  {
    Products(a);
    Products(b);
    var d := b - a;
    assert b * b - b - (a * a - a) == d * (a + b - 1);
    assert d * (a + b - 1) >= 0;
  }

  // ---------------------------------------------------------------- one turn of the loop

  lemma ErrorSteps(r: nat, x: int, y: int)
    ensures Error(r, x, y + 1) == Error(r, x, y) + 2 * y + 1
    ensures Error(r, x - 1, y) == Error(r, x, y) - 2 * (x - 1)
  {
    Products(x);
    Products(y);
  }

  /** On the arc the error stays between -2x and 0. */
  lemma ArcIsWindow(r: nat, x: int, y: int)
    requires r > 0
    ensures OnArc(r, x, y) <==> 0 <= y <= x && -2 * x <= Error(r, x, y) < 0
  {
    Products(x);
  }

  datatype Pen = Pen(x: int, error: int)

  /** One turn of the loop on line y, in 16-bit arithmetic. */
  function Turn(pen: Pen, y: int): Pen {
    var e := I16(I16(pen.error + y) + (y + 1));
    if e >= 0 then Pen(pen.x - 1, I16(I16(e - (pen.x - 1)) - (pen.x - 1))) else Pen(pen.x, e)
  }

  lemma I16Sum(a: int, b: int, c: int)
    ensures I16(I16(I16(a) + b) + c) == I16(a + b + c)
  {
    I16Twice(a, b);
    I16Twice(a + b, c);
  }

  /** The value the loop tests fits 16 bits. */
  predicate TestFits(r: nat, x: int, y: int) { IsI16(Error(r, x, y) + 2 * y + 1) }

  /** Where it does, the loop moves to the arc's pixel on the next line, if the octant reaches that far. */
  lemma TurnIdeal(r: nat, x: int, y: int)
    requires r > 0 && OnArc(r, x, y) && TestFits(r, x, y)
    ensures var next := Turn(Pen(x, I16(Error(r, x, y))), y);
            next.x <= x && next.error == I16(Error(r, next.x, y + 1)) && (next.x > y ==> OnArc(r, next.x, y + 1))
            && (next.x <= y ==> x <= y + 1 && !OnArc(r, x, y + 1))
  {
    hide I16, Error, OnArc;
    ArcIsWindow(r, x, y);
    ErrorSteps(r, x, y);
    ErrorSteps(r, x, y + 1);
    ArcIsWindow(r, x, y + 1);
    ArcIsWindow(r, x - 1, y + 1);
    I16Sum(Error(r, x, y), y, y + 1);
    I16Fits(Error(r, x, y) + y + (y + 1));
    I16Twice(Error(r, x, y + 1) - (x - 1), -(x - 1));
  }

  /** Where it does not, the next pixel is off the arc. */
  lemma TurnStrays(r: nat, x: int, y: int)
    requires 0 < r <= 0x7FFF && OnArc(r, x, y) && y < x && !TestFits(r, x, y)
    ensures var next := Turn(Pen(x, I16(Error(r, x, y))), y); next.x > y && !OnArc(r, next.x, y + 1)
  {
    hide I16, Error, OnArc;
    ArcBelow(r, x, y);
    ArcIsWindow(r, x, y);
    ErrorSteps(r, x, y);
    ArcIsWindow(r, x, y + 1);
    I16Sum(Error(r, x, y), y, y + 1);
    var e := Error(r, x, y) + y + (y + 1);
    I16Wraps(e);
    if e < 0 {
      if OnArc(r, x - 1, y + 1) {
        ArcUnique(r, x - 1, y + 1, x, y + 1);
      }
    }
  }

  lemma I16Wraps(v: int)
    requires -0x1_0000 <= v < 0x1_0000 && !IsI16(v)
    ensures I16(v) == if v < 0 then v + 0x1_0000 else v - 0x1_0000
  {}

  lemma ArcBelow(r: nat, x: int, y: int)
    requires r > 0 && OnArc(r, x, y)
    ensures x <= r
  {
    if x > r {
      ProductMono(r + 1, x);
      Products(r);
      SquareMono(0, y);
    }
  }

  // ---------------------------------------------------------------- the whole run

  /** Every test the loop makes before its last line fits 16 bits. */
  ghost predicate CircleFits(r: nat) {
    forall x, y | OnArc(r, x, y) && y < x :: TestFits(r, x, y)
  }

  lemma SmallCirclesFit(r: nat)
    requires r <= 0x4000
    ensures CircleFits(r)
  {
    hide Error;
    forall x, y | OnArc(r, x, y) && y < x ensures TestFits(r, x, y) {
      ArcIsWindow(r, x, y);
      ArcBelow(r, x, y);
      OctantEnds(r, x, y);
    }
  }

  /** The octant ends well before 2y leaves 16 bits. */
  lemma OctantEnds(r: nat, x: int, y: int)
    requires 0 < r <= 0x4000 && OnArc(r, x, y)
    ensures y < 0x3FFF
  {
    if y >= 0x3FFF {
      ProductMono(y, x);
      Products(y);
      SquareMono(r, 0x4000);
      ProductMono(0x3FFF, y);
      SquareMono(0x3FFF, y);
    }
  }

  /** The largest radius a 16-bit caller can pass: on line 182 the test wraps around. */
  lemma LargeCircleStrays()
    ensures !CircleFits(0x7FFF)
    ensures exists k: nat :: Drawn(0x7FFF, k) && !OnArc(0x7FFF, Trace(0x7FFF, k).x, k)
  {
    assert OnArc(0x7FFF, 0x7FFE, 182);
    assert !TestFits(0x7FFF, 0x7FFE, 182);
    CircleFollowsExactlyWhen(0x7FFF);
  }

  /** The loop variables when line k begins. */
  function Trace(r: nat, k: nat): Pen
    decreases k
  {
    if k == 0 then Pen(r, I16(-(r as int))) else Turn(Trace(r, k - 1), k - 1)
  }

  /** Line k is reached and drawn. */
  predicate Drawn(r: nat, k: nat)
    decreases k
  {
    Trace(r, k).x >= k && (k > 0 ==> Drawn(r, k - 1))
  }

  lemma FirstOnArc(r: nat)
    ensures OnArc(r, r, 0) && Error(r, r, 0) == -(r as int)
  {
    Products(r);
    if r > 0 {
      SquareMono(1, r);
    }
  }

  /** Every pixel drawn is on the arc exactly when the tests fit: where one first does not, the next pixel is off it. */
  lemma CircleFollowsExactlyWhen(r: nat)
    requires 0 < r <= 0x7FFF
    ensures CircleFits(r) <==> forall k: nat | Drawn(r, k) :: OnArc(r, Trace(r, k).x, k)
  {
    hide Error, OnArc, TestFits, Trace, Drawn;
    if CircleFits(r) {
      forall k: nat | Drawn(r, k) ensures OnArc(r, Trace(r, k).x, k) {
        DrawnOnArc(r, k);
      }
    } else {
      var x, y :| OnArc(r, x, y) && y < x && !TestFits(r, x, y);
      Unfit(r, x, y);
    }
  }

  lemma {:induction false} DrawnOnArc(r: nat, k: nat)
    requires 0 < r <= 0x7FFF && CircleFits(r) && Drawn(r, k)
    ensures OnArc(r, Trace(r, k).x, k) && Trace(r, k).error == I16(Error(r, Trace(r, k).x, k))
    decreases k
  {
    hide I16, Error, TestFits, Turn;
    if k == 0 {
      FirstOnArc(r);
    } else {
      DrawnOnArc(r, k - 1);
      var x := Trace(r, k - 1).x;
      if x == k - 1 {
        TurnGoesInByOne(Trace(r, k - 1), k - 1);
      } else {
        TurnIdeal(r, x, k - 1);
      }
    }
  }

  /** As long as every pixel drawn is on the arc, the run reaches every line of the octant with the true error. */
  lemma {:induction false} Reaches(r: nat, x: int, y: int, k: nat)
    requires 0 < r <= 0x7FFF && OnArc(r, x, y) && k <= y < x
    requires forall m: nat | Drawn(r, m) :: OnArc(r, Trace(r, m).x, m)
    ensures Drawn(r, k) && Trace(r, k).error == I16(Error(r, Trace(r, k).x, k))
    decreases k
  {
    hide I16, Error, TestFits, Turn, OnArc;
    if k == 0 {
      FirstOnArc(r);
    } else {
      Reaches(r, x, y, k - 1);
      var w := Trace(r, k - 1).x;
      ArcUnique(r, w, k - 1, x, y);
      if TestFits(r, w, k - 1) {
        TurnIdeal(r, w, k - 1);
        TurnGoesInByOne(Trace(r, k - 1), k - 1);
      } else {
        TurnStrays(r, w, k - 1);
        assert Drawn(r, k);
      }
    }
  }

  lemma TurnGoesInByOne(pen: Pen, y: int)
    ensures pen.x - 1 <= Turn(pen, y).x <= pen.x
  {}

  /** An unfit test, or an earlier one, sends the run off the arc. */
  lemma Unfit(r: nat, x: int, y: int)
    requires 0 < r <= 0x7FFF && OnArc(r, x, y) && y < x && !TestFits(r, x, y)
    ensures exists k: nat :: Drawn(r, k) && !OnArc(r, Trace(r, k).x, k)
  {
    hide I16, Error, TestFits, Turn;
    if forall k: nat | Drawn(r, k) :: OnArc(r, Trace(r, k).x, k) {
      Reaches(r, x, y, y);
      ArcUnique(r, x, y, Trace(r, y).x, y);
      ArcUnique(r, Trace(r, y).x, y, x, y);
      TurnStrays(r, x, y);
      assert Drawn(r, y + 1);
    }
  }

  // ---------------------------------------------------------------- drawing

  /** The eight mirror images of an offset. */
  ghost function Mirrors(x0: int, y0: int, x: int, y: int): iset<Point> {
    iset{Point(x0 + x, y0 + y), Point(x0 - x, y0 + y), Point(x0 + x, y0 - y), Point(x0 - x, y0 - y),
         Point(x0 + y, y0 + x), Point(x0 - y, y0 + x), Point(x0 + y, y0 - x), Point(x0 - y, y0 - x)}
  }

  method DrawMirrors(d: Disp, x0: int, y0: int, x: int, y: int, color: Color)
    modifies d`pixels
    ensures Painted(old(d.pixels), d.pixels, Mirrors(x0, y0, x, y), color)
  {
    d.SetPixel(x0 + x, y0 + y, color);
    d.SetPixel(x0 - x, y0 + y, color);
    d.SetPixel(x0 + x, y0 - y, color);
    d.SetPixel(x0 - x, y0 - y, color);
    d.SetPixel(x0 + y, y0 + x, color);
    d.SetPixel(x0 - y, y0 + x, color);
    d.SetPixel(x0 + y, y0 - x, color);
    d.SetPixel(x0 - y, y0 - x, color);
  }

  lemma MirrorsAre(x0: int, y0: int, x: int, y: int, p: Point)
    requires 0 <= y <= x
    ensures p in Mirrors(x0, y0, x, y) <==>
            Max(Abs(p.x - x0), Abs(p.y - y0)) == x && Min(Abs(p.x - x0), Abs(p.y - y0)) == y
  {}

  /** One more line of the octant. */
  lemma LineOfOctant(x0: int, y0: int, r: nat, x: int, y: int)
    requires OnArc(r, x, y)
    ensures CircleBelow(x0, y0, r, y) + Mirrors(x0, y0, x, y) == CircleBelow(x0, y0, r, y + 1)
  {
    hide OnArc, Mirrors;
    forall p: Point
      ensures p in CircleBelow(x0, y0, r, y) + Mirrors(x0, y0, x, y) <==> p in CircleBelow(x0, y0, r, y + 1)
    {
      InOctant(x0, y0, r, x, y, p);
    }
  }

  lemma InOctant(x0: int, y0: int, r: nat, x: int, y: int, p: Point)
    requires OnArc(r, x, y)
    ensures p in Mirrors(x0, y0, x, y) <==> InCircle(x0, y0, r, p) && Min(Abs(p.x - x0), Abs(p.y - y0)) == y
  {
    hide Mirrors;
    MirrorsAre(x0, y0, x, y, p);
    var a, b := Abs(p.x - x0), Abs(p.y - y0);
    if r > 0 && OnArc(r, Max(a, b), Min(a, b)) && Min(a, b) == y {
      ArcUnique(r, x, y, Max(a, b), y);
      ArcUnique(r, Max(a, b), y, x, y);
    }
  }

  /** Where the loop ends, the octant ends. */
  lemma OctantDone(x0: int, y0: int, r: nat, x: int, y: int)
    requires OnArc(r, x, y) && (x == y || (x == y + 1 && !OnArc(r, x, y + 1)))
    ensures CircleBelow(x0, y0, r, y + 1) == CirclePoints(x0, y0, r)
  {
    forall p: Point | InCircle(x0, y0, r, p)
      ensures Min(Abs(p.x - x0), Abs(p.y - y0)) <= y
    {
      var a, b := Abs(p.x - x0), Abs(p.y - y0);
      if Min(a, b) > y && r > 0 {
        ArcUnique(r, x, y, Max(a, b), Min(a, b));
      }
    }
  }

  /** What one turn leaves the next with. */
  lemma TurnOrDone(x0: int, y0: int, r: nat, x: int, y: int)
    requires r <= 0x7FFF && CircleFits(r) && OnArc(r, x, y)
    ensures var next := Turn(Pen(x, I16(Error(r, x, y))), y);
            && next.x <= x
            && (next.x > y ==> OnArc(r, next.x, y + 1) && next.error == I16(Error(r, next.x, y + 1)))
            && (next.x <= y ==> CircleBelow(x0, y0, r, y + 1) == CirclePoints(x0, y0, r))
  {
    hide I16, Error, OnArc, CircleBelow, CirclePoints, TestFits;
    TurnGoesInByOne(Pen(x, I16(Error(r, x, y))), y);
    ArcInOrder(r, x, y);
    if x == y {
      OctantDone(x0, y0, r, x, y);
    } else {
      assert TestFits(r, x, y);
      TurnIdeal(r, x, y);
      if Turn(Pen(x, I16(Error(r, x, y))), y).x <= y {
        OctantDone(x0, y0, r, x, y);
      }
    }
  }

  lemma ArcInOrder(r: nat, x: int, y: int)
    requires OnArc(r, x, y)
    ensures 0 <= y <= x && (r == 0 ==> x == y == 0)
  {}

  /** `circle`: all the pixels on the circle and no others. */
  method DrawCircle(d: Disp, x0: int, y0: int, radius: nat, color: Color)
    requires radius <= 0x7FFF && CircleFits(radius)
    modifies d`pixels
    ensures Painted(old(d.pixels), d.pixels, CirclePoints(x0, y0, radius), color)
  {
    hide I16, Error, OnArc, CircleBelow, CirclePoints, CircleFits, Painted, Mirrors;
    var error, x, y := I16(-(radius as int)), radius as int, 0;
    FirstOnArc(radius);
    NoneBelow(x0, y0, radius, d.pixels, color);
    while x >= y
      invariant 0 <= y && x <= radius
      invariant Painted(old(d.pixels), d.pixels, CircleBelow(x0, y0, radius, y), color)
      invariant x >= y ==> OnArc(radius, x, y) && error == I16(Error(radius, x, y))
      invariant x < y ==> CircleBelow(x0, y0, radius, y) == CirclePoints(x0, y0, radius)
      decreases x - y
    {
      TurnOrDone(x0, y0, radius, x, y);
      LineOfOctant(x0, y0, radius, x, y);
      ghost var before := d.pixels;
      DrawMirrors(d, x0, y0, x, y, color);
      PaintedTwice(old(d.pixels), before, d.pixels, CircleBelow(x0, y0, radius, y), Mirrors(x0, y0, x, y), color);
      error := I16(error + y);
      y := y + 1;
      error := I16(error + y);
      if error >= 0 {
        x := x - 1;
        error := I16(error - x);
        error := I16(error - x);
      }
    }
  }

  lemma NoneBelow(x0: int, y0: int, r: nat, pixels: map<Point, Color>, color: Color)
    ensures Painted(pixels, pixels, CircleBelow(x0, y0, r, 0), color)
  {}
}
