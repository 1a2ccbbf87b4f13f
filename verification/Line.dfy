/** `Disp::line`: the incremental line against the line rounded point by point. */
module Line {
  import opened Display
  import opened Division

  // ---------------------------------------------------------------- the ideal line

  /** The integer nearest to p / q; a tie goes down. */
  function Near(p: int, q: int): int
    requires q > 0
  {
    (2 * p + q - 1) / (2 * q)
  }

  lemma NearWindow(p: int, q: int)
    requires q > 0
    ensures -q <= 2 * (q * Near(p, q) - p) < q
  {
    var a, n := 2 * p + q - 1, Near(p, q);
    Euclid(a, 2 * q);
    assert 2 * q * n == 2 * (q * n);
  }

  lemma NearUnique(p: int, q: int, j: int)
    requires q > 0 && -q <= 2 * (q * j - p) < q
    ensures Near(p, q) == j
  {
    hide Near;
    var n := Near(p, q);
    NearWindow(p, q);
    if n < j {
      MulLe(q, n + 1, j);
      MulNext(q, n);
    } else if j < n {
      MulLe(q, j + 1, n);
      MulNext(q, j);
    }
  }

  function Length(dx: nat, dy: nat): nat { Max(dx, dy) }

  /** Steps along x and y after k steps along the longer side. */
  function Steps(dx: nat, dy: nat, k: nat): (int, int)
    requires k <= Length(dx, dy)
  {
    if k == 0 then (0, 0)
    else if dx >= dy then (k, Near(dy * k, dx))
    else (Near(dx * k, dy), k)
  }

  /** `dx * j - dy * i`: how far a point is off the ideal line, times the line's length. */
  function Off(dx: nat, dy: nat, i: int, j: int): int { dx * j - dy * i }

  /** `error` at that place. */
  function Error(dx: nat, dy: nat, i: int, j: int): int { dx - dy + Off(dx, dy, i, j) }

  /** The distance from the ideal line, times its length: within half a pixel. */
  predicate OnLine(dx: nat, dy: nat, i: int, j: int) { 2 * Abs(Off(dx, dy, i, j)) <= Length(dx, dy) }

  /** Doubled, the error never leaves 16 bits. */
  ghost predicate ErrorFits(dx: nat, dy: nat) {
    forall k: nat | k < Length(dx, dy) :: ErrorFitsAt(dx, dy, k)
  }

  predicate ErrorFitsAt(dx: nat, dy: nat, k: nat)
    requires k <= Length(dx, dy)
  {
    IsI16(2 * Error(dx, dy, Steps(dx, dy, k).0, Steps(dx, dy, k).1))
  }

  /** The window in which that distance moves. */
  predicate Window(dx: int, dy: int, off: int) {
    if dx > dy then -dx <= 2 * off < dx else if dx < dy then -dy < 2 * off <= dy else off == 0
  }

  lemma StepsWindow(dx: nat, dy: nat, k: nat)
    requires k <= Length(dx, dy) && Length(dx, dy) > 0
    ensures Window(dx, dy, Off(dx, dy, Steps(dx, dy, k).0, Steps(dx, dy, k).1))
    ensures OnLine(dx, dy, Steps(dx, dy, k).0, Steps(dx, dy, k).1)
  {
    if k > 0 {
      if dx > dy {
        NearWindow(dy * k, dx);
      } else if dx == dy {
        NearUnique(dy * k, dx, k);
      } else {
        NearWindow(dx * k, dy);
      }
    }
  }

  lemma WindowDecides(dx: nat, dy: nat, k: nat, i: int, j: int)
    requires 0 < k <= Length(dx, dy) && Window(dx, dy, Off(dx, dy, i, j)) && (if dx >= dy then i == k else j == k)
    ensures Steps(dx, dy, k) == (i, j)
  {
    if dx >= dy {
      NearUnique(dy * k, dx, j);
    } else {
      NearUnique(dx * k, dy, i);
    }
  }

  lemma StepsEnd(dx: nat, dy: nat)
    ensures Steps(dx, dy, Length(dx, dy)) == (dx, dy)
  {
    if Length(dx, dy) > 0 {
      WindowDecides(dx, dy, Length(dx, dy), dx, dy);
    }
  }

  /** The end point is the only point of the line with no step left on the longer side. */
  lemma StepsInside(dx: nat, dy: nat, k: nat)
    requires k <= Length(dx, dy)
    ensures var (i, j) := Steps(dx, dy, k);
            0 <= i <= dx && 0 <= j <= dy && ((i, j) == (dx, dy) <==> k == Length(dx, dy))
  {
    hide Near, Error;
    StepsEnd(dx, dy);
    if 0 < k {
      StepsWindow(dx, dy, k);
      var (i, j) := Steps(dx, dy, k);
      if dx >= dy {
        if j > dy {
          MulLe(dx, dy + 1, j);
          MulNext(dx, dy);
          MulLe(dy, i, dx);
        } else if j < 0 {
          MulLe(dx, j, -1);
          MulLe(dy, 0, i);
        }
      } else {
        if i > dx {
          MulLe(dy, dx + 1, i);
          MulNext(dy, dx);
          MulLe(dx, j, dy);
        } else if i < 0 {
          MulLe(dy, i, -1);
          MulLe(dx, 0, j);
        }
      }
    }
  }

  // ---------------------------------------------------------------- one turn of the loop

  /** The loop variables: steps made so far, and `error`. */
  datatype Pen = Pen(i: int, j: int, error: int)

  /** One turn of the loop in 16-bit arithmetic. */
  function Turn(dx: int, dy: int, pen: Pen): Pen {
    var error2 := I16(2 * pen.error);
    var right, up := error2 > -dy, error2 < dx;
    var e := if right then I16(pen.error - dy) else pen.error;
    var f := if up then I16(e + dx) else e;
    Pen(if right then pen.i + 1 else pen.i, if up then pen.j + 1 else pen.j, f)
  }

  function PenAt(dx: nat, dy: nat, k: nat): Pen
    requires k <= Length(dx, dy)
  {
    var s := Steps(dx, dy, k);
    Pen(s.0, s.1, Error(dx, dy, s.0, s.1))
  }

  function Moved(off: int, dx: int, dy: int, right: bool, up: bool): int {
    off - (if right then dy else 0) + (if up then dx else 0)
  }

  /** A turn keeps the window, and always moves along the longer side. */
  lemma TurnKeepsWindow(dx: int, dy: int, pen: Pen, off: int, right: bool, up: bool)
    requires 0 <= dx <= 0x7FFF && 0 <= dy <= 0x7FFF && 0 < dx + dy && IsI16(2 * (dx - dy))
    requires Window(dx, dy, off) && pen.error == dx - dy + off && IsI16(2 * pen.error)
    requires right == (2 * pen.error > -dy) && up == (2 * pen.error < dx)
    ensures var off' := Moved(off, dx, dy, right, up);
            && Window(dx, dy, off') && IsI16(dx - dy + off')
            && Turn(dx, dy, pen) ==
                Pen(if right then pen.i + 1 else pen.i, if up then pen.j + 1 else pen.j, dx - dy + off')
    ensures if dx >= dy then right else up
  {
    hide I16;
    var off' := Moved(off, dx, dy, right, up);
    I16Fits(2 * pen.error);
    I16Twice(pen.error - dy, dx);
    I16Fits(dx - dy + off');
  }

  lemma OffMoves(dx: nat, dy: nat, i: int, j: int, right: bool, up: bool)
    ensures Off(dx, dy, if right then i + 1 else i, if up then j + 1 else j) ==
            Moved(Off(dx, dy, i, j), dx, dy, right, up)
  {
    MulNext(dx, j);
    MulNext(dy, i);
  }

  /** Where the doubled error fits, a turn goes from one point of the ideal line to the next. */
  lemma TurnIdeal(dx: nat, dy: nat, k: nat)
    requires dx <= 0x7FFF && dy <= 0x7FFF && k < Length(dx, dy) && IsI16(2 * (dx - dy)) && ErrorFitsAt(dx, dy, k)
    ensures Turn(dx, dy, PenAt(dx, dy, k)) == PenAt(dx, dy, k + 1)
    ensures IsI16(PenAt(dx, dy, k + 1).error)
  {
    hide Off, Moved, Turn;
    var pen := PenAt(dx, dy, k);
    StepsWindow(dx, dy, k);
    var right, up := 2 * pen.error > -(dy as int), 2 * pen.error < dx;
    TurnKeepsWindow(dx, dy, pen, Off(dx, dy, pen.i, pen.j), right, up);
    OffMoves(dx, dy, pen.i, pen.j, right, up);
    var next := Turn(dx, dy, pen);
    hide Near;
    WindowDecides(dx, dy, k + 1, next.i, next.j);
  }

  /** Where it does not, the turn leaves the line. */
  lemma TurnStrays(dx: nat, dy: nat, k: nat)
    requires dx <= 0x7FFF && dy <= 0x7FFF && k < Length(dx, dy) && IsI16(PenAt(dx, dy, k).error) &&
             !ErrorFitsAt(dx, dy, k)
    ensures var next := Turn(dx, dy, PenAt(dx, dy, k)); !OnLine(dx, dy, next.i, next.j)
  {
    hide Near, Steps, Off;
    var pen := PenAt(dx, dy, k);
    StepsWindow(dx, dy, k);
    var next := Turn(dx, dy, pen);
    OffMoves(dx, dy, pen.i, pen.j, next.i > pen.i, next.j > pen.j);
  }

  // ---------------------------------------------------------------- the whole run

  /** The loop variables after k turns. */
  function Trace(dx: nat, dy: nat, k: nat): Pen
    decreases k
  {
    if k == 0 then Pen(0, 0, dx - dy) else Turn(dx, dy, Trace(dx, dy, k - 1))
  }

  lemma {:induction false} TraceIdeal(dx: nat, dy: nat, k: nat)
    requires dx <= 0x7FFF && dy <= 0x7FFF && k <= Length(dx, dy)
    requires forall m: nat | m < k :: m < Length(dx, dy) && ErrorFitsAt(dx, dy, m)
    ensures Trace(dx, dy, k) == PenAt(dx, dy, k) && IsI16(PenAt(dx, dy, k).error)
    decreases k
  {
    hide Turn, Near;
    if k > 0 {
      assert ErrorFitsAt(dx, dy, 0);
      TraceIdeal(dx, dy, k - 1);
      TurnIdeal(dx, dy, k - 1);
    }
  }

  /**
   * The run follows the ideal line point by point exactly when the doubled error fits all the way.
   * Where it first does not fit, the next point is more than half a pixel off the line.
   */
  lemma LineFollowsExactlyWhen(dx: nat, dy: nat)
    requires dx <= 0x7FFF && dy <= 0x7FFF
    ensures ErrorFits(dx, dy) <==> forall k: nat | k <= Length(dx, dy) ::
            OnLine(dx, dy, Trace(dx, dy, k).i, Trace(dx, dy, k).j)
    ensures ErrorFits(dx, dy) ==> forall k: nat | k <= Length(dx, dy) :: Trace(dx, dy, k) == PenAt(dx, dy, k)
  {
    hide Turn, Near, ErrorFitsAt, OnLine, Trace, PenAt;
    if ErrorFits(dx, dy) {
      forall k: nat | k <= Length(dx, dy)
        ensures Trace(dx, dy, k) == PenAt(dx, dy, k) && OnLine(dx, dy, Trace(dx, dy, k).i, Trace(dx, dy, k).j)
      {
        FollowsAt(dx, dy, k);
      }
    } else {
      var k := FirstUnfit(dx, dy, 0);
      StraysAt(dx, dy, k);
      assert !OnLine(dx, dy, Trace(dx, dy, k + 1).i, Trace(dx, dy, k + 1).j);
    }
  }

  lemma FollowsAt(dx: nat, dy: nat, k: nat)
    requires dx <= 0x7FFF && dy <= 0x7FFF && k <= Length(dx, dy) && ErrorFits(dx, dy)
    ensures Trace(dx, dy, k) == PenAt(dx, dy, k) && OnLine(dx, dy, Trace(dx, dy, k).i, Trace(dx, dy, k).j)
  {
    hide Near, ErrorFitsAt, Trace;
    TraceIdeal(dx, dy, k);
    if Length(dx, dy) > 0 {
      StepsWindow(dx, dy, k);
    }
  }

  lemma StraysAt(dx: nat, dy: nat, k: nat)
    requires dx <= 0x7FFF && dy <= 0x7FFF && k < Length(dx, dy) && !ErrorFitsAt(dx, dy, k)
    requires forall m: nat | m < k :: ErrorFitsAt(dx, dy, m)
    ensures !OnLine(dx, dy, Trace(dx, dy, k + 1).i, Trace(dx, dy, k + 1).j)
  {
    hide Near, ErrorFitsAt, Turn, PenAt, OnLine;
    TraceIdeal(dx, dy, k);
    TurnStrays(dx, dy, k);
  }

  lemma {:induction false} FirstUnfit(dx: nat, dy: nat, from: nat) returns (k: nat)
    requires exists m: nat :: from <= m < Length(dx, dy) && !ErrorFitsAt(dx, dy, m)
    ensures from <= k < Length(dx, dy) && !ErrorFitsAt(dx, dy, k)
    ensures forall m: nat | from <= m < k :: ErrorFitsAt(dx, dy, m)
    decreases Length(dx, dy) - from
  {
    hide ErrorFitsAt;
    if !ErrorFitsAt(dx, dy, from) {
      k := from;
    } else {
      k := FirstUnfit(dx, dy, from + 1);
    }
  }

  /** A bound that needs no walk along the line. */
  lemma ShortLinesFit(dx: nat, dy: nat)
    requires 3 * Max(dx, dy) - 2 * Min(dx, dy) <= 0x7FFF || (Min(dx, dy) == 0 && Max(dx, dy) <= 0x3FFF)
    ensures ErrorFits(dx, dy)
  {
    hide Near, Off;
    forall k: nat | k < Length(dx, dy) ensures ErrorFitsAt(dx, dy, k) {
      StepsWindow(dx, dy, k);
      if dx == 0 || dy == 0 {
        StraightLine(dx, dy, k);
      }
    }
  }

  lemma StraightLine(dx: nat, dy: nat, k: nat)
    requires (dx == 0 || dy == 0) && k < Length(dx, dy)
    ensures Off(dx, dy, Steps(dx, dy, k).0, Steps(dx, dy, k).1) == 0
  {
    if k > 0 {
      WindowDecides(dx, dy, k, if dx == 0 then 0 else k, if dx == 0 then k else 0);
    }
  }

  /** A level line of 16384 pixels is already too long. */
  lemma LongLevelLineStrays()
    ensures !ErrorFits(0x4000, 0)
  {
    assert !ErrorFitsAt(0x4000, 0, 0);
  }

  // ---------------------------------------------------------------- drawing

  function Sign(from: int, to: int): int { if from < to then 1 else -1 }

  /** `n` steps from `from`, in the direction of `to`. */
  function Toward(from: int, to: int, n: int): int { if from < to then from + n else from - n }

  /** The k-th point of the rounded line. */
  function PointAt(x1: int, y1: int, x2: int, y2: int, k: nat): Point
    requires k <= Length(Abs(x2 - x1), Abs(y2 - y1))
  {
    var s := Steps(Abs(x2 - x1), Abs(y2 - y1), k);
    Point(Toward(x1, x2, s.0), Toward(y1, y2, s.1))
  }

  /** The first n points. */
  ghost function Points(x1: int, y1: int, x2: int, y2: int, n: nat): iset<Point>
    requires n <= Length(Abs(x2 - x1), Abs(y2 - y1)) + 1
  {
    iset k: nat | k < n :: PointAt(x1, y1, x2, y2, k)
  }

  predicate Drawable(x1: int, y1: int, x2: int, y2: int) {
    && IsI16(x1) && IsI16(y1) && IsI16(x2) && IsI16(y2)
    && Abs(x2 - x1) <= 0x7FFF && Abs(y2 - y1) <= 0x7FFF
  }

  /** Every point lies between the ends, and only the last one is the end point. */
  lemma PointInside(x1: int, y1: int, x2: int, y2: int, k: nat)
    requires k <= Length(Abs(x2 - x1), Abs(y2 - y1))
    ensures var p := PointAt(x1, y1, x2, y2, k);
            && Min(x1, x2) <= p.x <= Max(x1, x2) && Min(y1, y2) <= p.y <= Max(y1, y2)
            && (p == Point(x2, y2) <==> k == Length(Abs(x2 - x1), Abs(y2 - y1)))
  {
    hide Steps;
    StepsInside(Abs(x2 - x1), Abs(y2 - y1), k);
  }

  /** `line`: one pixel for every step along the longer side, each on the rounded line. */
  method DrawLine(d: Disp, x1: int, y1: int, x2: int, y2: int, color: Color) returns (ghost turns: nat)
    requires Drawable(x1, y1, x2, y2) && ErrorFits(Abs(x2 - x1), Abs(y2 - y1))
    modifies d`pixels
    ensures turns == Length(Abs(x2 - x1), Abs(y2 - y1))
    ensures Painted(old(d.pixels), d.pixels, Points(x1, y1, x2, y2, turns + 1), color)
  {
    hide PointAt, PenAt, ErrorFits, Painted, I16, Points;
    var deltaX: int, deltaY: int := Abs(I16(x2 - x1)), Abs(I16(y2 - y1));
    var signX, signY := Sign(x1, x2), Sign(y1, y2);
    var error := deltaX - deltaY;
    var x, y := x1, y1;
    turns := 0;
    d.SetPixel(x2, y2, color);
    StartPainted(old(d.pixels), d.pixels, x1, y1, x2, y2, color);
    I16Fits(x2 - x1);
    I16Fits(y2 - y1);
    assert PenAt(deltaX, deltaY, 0).error == error by {
      FirstPen(deltaX, deltaY);
    }
    while x != x2 || y != y2
      invariant turns <= Length(deltaX, deltaY) && Point(x, y) == PointAt(x1, y1, x2, y2, turns)
      invariant error == PenAt(deltaX, deltaY, turns).error
      invariant Painted(old(d.pixels), d.pixels, Points(x1, y1, x2, y2, turns) + iset{Point(x2, y2)}, color)
      decreases Length(deltaX, deltaY) - turns
    {
      PointInside(x1, y1, x2, y2, turns);
      ghost var before := d.pixels;
      d.SetPixel(x, y, color);
      MorePainted(old(d.pixels), before, d.pixels, x1, y1, x2, y2, turns, color);
      TurnSteps(x1, y1, x2, y2, turns);
      var error2 := I16(2 * error);
      if error2 > -deltaY {
        error := I16(error - deltaY);
        x := I16(x + signX);
      }
      if error2 < deltaX {
        error := I16(error + deltaX);
        y := I16(y + signY);
      }
      turns := turns + 1;
    }
    PointInside(x1, y1, x2, y2, turns);
    AllPoints(x1, y1, x2, y2);
  }

  /** What one turn does to the loop variables. */
  lemma TurnSteps(x1: int, y1: int, x2: int, y2: int, k: nat)
    requires Drawable(x1, y1, x2, y2) && k < Length(Abs(x2 - x1), Abs(y2 - y1)) && ErrorFits(Abs(x2 - x1), Abs(y2 - y1))
    ensures var dx, dy := Abs(x2 - x1), Abs(y2 - y1);
            var p, q := PointAt(x1, y1, x2, y2, k), PointAt(x1, y1, x2, y2, k + 1);
            var error := PenAt(dx, dy, k).error;
            var right, up := I16(2 * error) > -(dy as int), I16(2 * error) < dx;
            var e := if right then I16(error - dy) else error;
            && PenAt(dx, dy, k + 1).error == (if up then I16(e + dx) else e)
            && q == Point(if right then I16(p.x + Sign(x1, x2)) else p.x, if up then I16(p.y + Sign(y1, y2)) else p.y)
  {
    hide Steps, Error, I16;
    var dx: nat, dy: nat := Abs(x2 - x1), Abs(y2 - y1);
    assert ErrorFitsAt(dx, dy, 0) && ErrorFitsAt(dx, dy, k);
    FirstError(dx, dy);
    TurnIdeal(dx, dy, k);
    NextPoint(x1, y1, x2, y2, k);
    I16Fits(PointAt(x1, y1, x2, y2, k + 1).x);
    I16Fits(PointAt(x1, y1, x2, y2, k + 1).y);
  }

  lemma FirstError(dx: nat, dy: nat)
    requires Length(dx, dy) > 0 && ErrorFitsAt(dx, dy, 0)
    ensures IsI16(2 * (dx - dy))
  {}

  lemma FirstPen(dx: nat, dy: nat)
    ensures PenAt(dx, dy, 0).error == dx - dy
  {}

  lemma NextPoint(x1: int, y1: int, x2: int, y2: int, k: nat)
    requires Drawable(x1, y1, x2, y2) && k < Length(Abs(x2 - x1), Abs(y2 - y1))
    ensures IsI16(PointAt(x1, y1, x2, y2, k + 1).x) && IsI16(PointAt(x1, y1, x2, y2, k + 1).y)
  {
    PointInside(x1, y1, x2, y2, k + 1);
  }

  lemma StartPainted(before: map<Point, Color>, after: map<Point, Color>, x1: int, y1: int, x2: int, y2: int,
      color: Color)
    requires after == before[Point(x2, y2) := color]
    ensures Painted(before, after, Points(x1, y1, x2, y2, 0) + iset{Point(x2, y2)}, color)
    ensures Point(x1, y1) == PointAt(x1, y1, x2, y2, 0)
  {}

  lemma MorePainted(start: map<Point, Color>, before: map<Point, Color>, after: map<Point, Color>,
                    x1: int, y1: int, x2: int, y2: int, k: nat, color: Color)
    requires k <= Length(Abs(x2 - x1), Abs(y2 - y1))
    requires Painted(start, before, Points(x1, y1, x2, y2, k) + iset{Point(x2, y2)}, color)
    requires after == before[PointAt(x1, y1, x2, y2, k) := color]
    ensures Painted(start, after, Points(x1, y1, x2, y2, k + 1) + iset{Point(x2, y2)}, color)
  {
    hide Steps;
    var p := PointAt(x1, y1, x2, y2, k);
    assert Points(x1, y1, x2, y2, k + 1) == Points(x1, y1, x2, y2, k) + iset{p};
  }

  lemma AllPoints(x1: int, y1: int, x2: int, y2: int)
    ensures var n := Length(Abs(x2 - x1), Abs(y2 - y1));
            Points(x1, y1, x2, y2, n) + iset{Point(x2, y2)} == Points(x1, y1, x2, y2, n + 1)
  {
    hide Steps;
    PointInside(x1, y1, x2, y2, Length(Abs(x2 - x1), Abs(y2 - y1)));
  }
}
