/** The integer line algorithm that the game's Line and the video DMA driver share:
    walk along the major axis and keep an error term in (-dx, 0]. */
module Bresenham {
  import opened Machine

  /** How far the minor coordinate has moved after k steps along the major axis: the
      point on the ideal line, rounded to nearest with ties toward the start. */
  function Steps(k: nat, dx: nat, dy: nat): nat {
    if dx == 0 then 0 else assert k * dy >= 0; (k * dy + (dx - 1) / 2) / dx
  }

  /** The error term that goes with it. */
  function Err(k: nat, dx: nat, dy: nat): int {
    k * dy - Steps(k, dx, dy) * dx - dx / 2
  }

  lemma StepsBound(k: nat, dx: nat, dy: nat)
    requires dx > 0
    ensures Steps(k, dx, dy) * dx <= k * dy + (dx - 1) / 2 < Steps(k, dx, dy) * dx + dx
  {
  }

  /** One turn of the loop: the accumulator alone decides whether to step, and it
      stays in range. */
  lemma {:induction false} ErrStep(k: nat, dx: nat, dy: nat)
    requires dx > 0 && dy <= dx
    ensures Err(k, dx, dy) <= 0 < Err(k, dx, dy) + dx
    ensures Err(k, dx, dy) + dy > 0 ==>
              Steps(k + 1, dx, dy) == Steps(k, dx, dy) + 1 && Err(k + 1, dx, dy) == Err(k, dx, dy) + dy - dx
    ensures Err(k, dx, dy) + dy <= 0 ==>
              Steps(k + 1, dx, dy) == Steps(k, dx, dy) && Err(k + 1, dx, dy) == Err(k, dx, dy) + dy
  {
    StepsBound(k, dx, dy);
    var s := Steps(k, dx, dy);
    var a := (k + 1) * dy + (dx - 1) / 2;
    assert (k + 1) * dy == k * dy + dy;
    assert (s + 1) * dx == s * dx + dx;
    if Err(k, dx, dy) + dy > 0 {
      QuotientIs(a, dx, s + 1);
    } else {
      QuotientIs(a, dx, s);
    }
  }

  /** Every pixel is within half a pixel of the ideal line. */
  lemma HalfPixel(k: nat, dx: nat, dy: nat)
    ensures dx > 0 ==> 2 * Abs(dx * Steps(k, dx, dy) - dy * k) <= dx
  {
  }

  /** Both ends are hit. */
  lemma EndsHit(dx: nat, dy: nat)
    requires dy <= dx
    ensures Steps(0, dx, dy) == 0 && Steps(dx, dx, dy) == dy
  {
    if dx > 0 {
      QuotientIs((dx - 1) / 2, dx, 0);
      assert dx * dy == dy * dx;
      QuotientIs(dx * dy + (dx - 1) / 2, dx, dy);
    }
  }

  lemma StepsMonotone(k: nat, m: nat, dx: nat, dy: nat)
    requires k <= m && dy <= dx
    ensures Steps(k, dx, dy) <= Steps(m, dx, dy)
    decreases m - k
  {
    if k < m && dx > 0 {
      ErrStep(k, dx, dy);
      StepsMonotone(k + 1, m, dx, dy);
    }
  }

  /** No pixel leaves the bounding box of the ends. */
  lemma StepsInRange(k: nat, dx: nat, dy: nat)
    requires k <= dx && dy <= dx
    ensures Steps(k, dx, dy) <= dy
  {
    StepsMonotone(k, dx, dx, dy);
    EndsHit(dx, dy);
  }

  /** Among all minor offsets, exactly one is nearest to the ideal line, ties going
      toward the start, and that is the one chosen. */
  lemma NearestOnly(k: nat, dx: nat, dy: nat, s: int)
    requires dx > 0
    ensures s == Steps(k, dx, dy) <==> -1 * dx <= 2 * (dx * s - dy * k) < dx
  {
    StepsBound(k, dx, dy);
    var d := s - Steps(k, dx, dy);
    assert dx * s == Steps(k, dx, dy) * dx + d * dx;
    MultipleGrows(d, dx);
  }

  // ------------------------------------------------------------------- segments

  /** A segment turned so that its first coordinate is the major one and grows. */
  datatype Segment = Segment(steep: bool, a1: int, b1: int, a2: int, b2: int) {
    function Dx(): int { a2 - a1 }

    function Dy(): nat { Abs(b2 - b1) }

    function Dir(): int { if b1 < b2 then 1 else -1 }

    /** The minor coordinate of the pixel at major coordinate a. */
    function At(a: int): int
      requires a1 <= a <= a2
    {
      b1 + Dir() * Steps(a - a1, Dx(), Dy())
    }
  }

  function Normalise(x1: int, y1: int, x2: int, y2: int): (s: Segment)
    ensures s.a1 <= s.a2 && s.Dy() <= s.Dx()
  {
    var steep := Abs(y2 - y1) > Abs(x2 - x1);
    var s := if steep then Segment(true, y1, x1, y2, x2) else Segment(false, x1, y1, x2, y2);
    if s.a1 > s.a2 then Segment(steep, s.a2, s.b2, s.a1, s.b1) else s
  }

  /** The error term with which the loop arrives at major coordinate a. */
  function ErrAt(s: Segment, a: int): int
    requires s.a1 <= a && s.Dy() <= s.Dx()
  {
    Err(a - s.a1, s.Dx(), s.Dy())
  }

  /** The loop's accumulator is the error term, and decides the next pixel. */
  lemma NextPixel(s: Segment, a: int)
    requires s.a1 <= a <= s.a2 && s.Dy() <= s.Dx()
    ensures var turn := ErrAt(s, a) + s.Dy() > 0;
            && ErrAt(s, a + 1) == ErrAt(s, a) + s.Dy() - (if turn then s.Dx() else 0)
            && (a < s.a2 ==> s.At(a + 1) == s.At(a) + (if turn then s.Dir() else 0))
  {
    if s.Dx() > 0 {
      ErrStep(a - s.a1, s.Dx(), s.Dy());
    }
    var n := Steps(a - s.a1, s.Dx(), s.Dy());
    hide Steps, Err;
    assert s.Dir() * (n + 1) == s.Dir() * n + s.Dir();
  }

  lemma FirstPixel(s: Segment)
    requires s.a1 <= s.a2 && s.Dy() <= s.Dx()
    ensures s.At(s.a1) == s.b1 && ErrAt(s, s.a1) == -(s.Dx() / 2)
  {
    EndsHit(s.Dx(), s.Dy());
  }

  /** The pixels of the line from (x1, y1) to (x2, y2). */
  predicate Covers(x1: int, y1: int, x2: int, y2: int, x: int, y: int) {
    var s := Normalise(x1, y1, x2, y2);
    var a, b := if s.steep then y else x, if s.steep then x else y;
    s.a1 <= a <= s.a2 && b == s.At(a)
  }

  /** The line does not depend on which end is drawn first. */
  lemma SameBothWays(x1: int, y1: int, x2: int, y2: int, x: int, y: int)
    ensures Covers(x1, y1, x2, y2, x, y) <==> Covers(x2, y2, x1, y1, x, y)
  {
  }

  lemma BothEnds(x1: int, y1: int, x2: int, y2: int)
    ensures Covers(x1, y1, x2, y2, x1, y1) && Covers(x1, y1, x2, y2, x2, y2)
  {
    var s := Normalise(x1, y1, x2, y2);
    EndsHit(s.Dx(), s.Dy());
  }

  /** Twice the area spanned by the ends and a point: zero exactly on the line. */
  function Cross(x1: int, y1: int, x2: int, y2: int, x: int, y: int): int {
    (y - y1) * (x2 - x1) - (x - x1) * (y2 - y1)
  }

  lemma CrossSwapEnds(x1: int, y1: int, x2: int, y2: int, x: int, y: int)
    ensures Cross(x2, y2, x1, y1, x, y) == -Cross(x1, y1, x2, y2, x, y)
  {
  }

  /** The ideal line misses a pixel of the segment by its rounding error. */
  lemma CrossIsError(s: Segment, a: int)
    requires s.a1 <= a <= s.a2 && s.Dy() <= s.Dx()
    ensures var n, k := Steps(a - s.a1, s.Dx(), s.Dy()), a - s.a1;
            Cross(s.a1, s.b1, s.a2, s.b2, a, s.At(a)) == s.Dir() * (n * s.Dx() - k * s.Dy())
  {
  }

  lemma SegmentClose(s: Segment, a: int)
    requires s.a1 <= a <= s.a2 && s.Dy() <= s.Dx()
    ensures 2 * Abs(Cross(s.a1, s.b1, s.a2, s.b2, a, s.At(a))) <= s.Dx()
    ensures Min(s.b1, s.b2) <= s.At(a) <= Max(s.b1, s.b2)
  {
    hide Steps, Cross;
    var k, dx, dy := a - s.a1, s.Dx(), s.Dy();
    CrossIsError(s, a);
    HalfPixel(k, dx, dy);
    StepsInRange(k, dx, dy);
    assert dx == 0 ==> Steps(k, dx, dy) * dx == 0 && k * dy == 0;
    assert dx * Steps(k, dx, dy) == Steps(k, dx, dy) * dx && dy * k == k * dy;
  }

  /** A pixel of the line is at most half a pixel from the ideal line, measured
      along the minor axis, and inside the bounding box of the ends. */
  lemma CloseToIdeal(x1: int, y1: int, x2: int, y2: int, x: int, y: int)
    requires Covers(x1, y1, x2, y2, x, y)
    ensures 2 * Abs(Cross(x1, y1, x2, y2, x, y)) <= Max(Abs(x2 - x1), Abs(y2 - y1))
    ensures Min(x1, x2) <= x <= Max(x1, x2) && Min(y1, y2) <= y <= Max(y1, y2)
  {
    var s := Normalise(x1, y1, x2, y2);
    SegmentClose(s, if s.steep then y else x);
    CrossSwapEnds(x1, y1, x2, y2, x, y);
    CrossSwapEnds(y1, x1, y2, x2, y, x);
    assert Cross(y1, x1, y2, x2, y, x) == -Cross(x1, y1, x2, y2, x, y);
  }

  /** The pixels of a line that is at least as wide as high, drawn from left to right, said
      without the loop: in each column between the ends, the pixel nearest to the ideal
      line, and of two equally near ones the one nearer to the row of the start. */
  lemma CoversExactly(x1: int, y1: int, x2: int, y2: int, x: int, y: int)
    requires x1 < x2 && Abs(y2 - y1) <= x2 - x1
    ensures Covers(x1, y1, x2, y2, x, y) <==>
              && x1 <= x <= x2
              && var twice := 2 * ((y - y1) * (x2 - x1) - (x - x1) * (y2 - y1));
                 if y1 < y2 then -(x2 - x1) <= twice < x2 - x1 else -(x2 - x1) < twice <= x2 - x1
  {
    var dx, dy, k := x2 - x1, Abs(y2 - y1), x - x1;
    assert Normalise(x1, y1, x2, y2) == Segment(false, x1, y1, x2, y2);
    if x1 <= x <= x2 {
      var s := if y1 < y2 then y - y1 else y1 - y;
      hide Steps;
      NearestOnly(k, dx, dy, s);
      Signs(y1 < y2, y - y1, dx, k, dy);
    }
  }

  lemma Signs(up: bool, rise: int, dx: int, k: int, dy: int)
    ensures dx * (if up then rise else -rise) - dy * k
         == if up then rise * dx - k * dy else -(rise * dx - k * -dy)
  {
  }

  /** A line that is higher than wide is the same with the axes exchanged. */
  lemma Transposed(x1: int, y1: int, x2: int, y2: int, x: int, y: int)
    requires Abs(y2 - y1) != Abs(x2 - x1)
    ensures Covers(x1, y1, x2, y2, x, y) <==> Covers(y1, x1, y2, x2, y, x)
  {
  }

  lemma Point(x1: int, y1: int, x: int, y: int)
    ensures Covers(x1, y1, x1, y1, x, y) <==> x == x1 && y == y1
  {
  }

  /** No gap along the major axis: every column (row, for a steep line) between the ends
      has a pixel, and only one. */
  lemma OneEach(x1: int, y1: int, x2: int, y2: int, a: int) returns (b: int)
    requires if Abs(y2 - y1) > Abs(x2 - x1) then Min(y1, y2) <= a <= Max(y1, y2) else Min(x1, x2) <= a <= Max(x1, x2)
    ensures Abs(y2 - y1) > Abs(x2 - x1) ==> forall x :: Covers(x1, y1, x2, y2, x, a) <==> x == b
    ensures Abs(y2 - y1) <= Abs(x2 - x1) ==> forall y :: Covers(x1, y1, x2, y2, a, y) <==> y == b
  {
    b := Normalise(x1, y1, x2, y2).At(a);
  }

  /** Walking along the major axis the line moves to a neighbouring pixel, in one of
      the eight directions, at every step. */
  lemma EightConnected(x1: int, y1: int, x2: int, y2: int, a: int)
    requires var s := Normalise(x1, y1, x2, y2); s.a1 <= a < s.a2
    ensures var s := Normalise(x1, y1, x2, y2); Abs(s.At(a + 1) - s.At(a)) <= 1
  {
    var s := Normalise(x1, y1, x2, y2);
    ErrStep(a - s.a1, s.Dx(), s.Dy());
  }
}
