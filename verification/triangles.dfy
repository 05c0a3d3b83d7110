/** Which pixels the scanline triangle rasteriser paints, and how far that is from
    the exact triangle. */
module Triangles {
  import opened Machine

  datatype Vertex = Vertex(x: i16, y: i16)

  // ------------------------------------------------------------ what is painted

  /** The end of a scanline: start at x0 and go `del` rows along an edge that moves
      num columns in den rows, all in 32 bits. */
  function Edge(x0: int, num: int, den: int, del: int): i32
    requires den > 0
  {
    ToI32(x0 + TruncDiv(ToI32(del * num), den))
  }

  /** The edge from p down to q, at row y. */
  function EdgeAt(p: Vertex, q: Vertex, y: int): i32
    requires p.y < q.y
  {
    Edge(p.x, q.x - p.x, q.y - p.y, y - p.y)
  }

  /** A triangle whose last two vertices share a row at or below the first. */
  predicate FlatBottom(a: Vertex, b: Vertex, c: Vertex, x: int, y: int)
    requires a.y <= b.y == c.y
  {
    var l, r := if b.x > c.x then c else b, if b.x > c.x then b else c;
    a.y != b.y && a.y <= y <= b.y && EdgeAt(a, l, y) <= x <= EdgeAt(a, r, y)
  }

  /** A triangle whose first two vertices share a row above the last. */
  predicate FlatTop(a: Vertex, b: Vertex, c: Vertex, x: int, y: int)
    requires a.y == b.y < c.y
  {
    var l, r := if a.x > b.x then b else a, if a.x > b.x then a else b;
    a.y <= y <= c.y && EdgeAt(l, c, y) <= x <= EdgeAt(r, c, y)
  }

  /** Where the long edge is cut at the middle vertex's row. */
  function Split(a: Vertex, b: Vertex, c: Vertex): Vertex
    requires a.y < c.y
  {
    Vertex(ToI16(EdgeAt(a, c, b.y)), b.y)
  }

  /** The order that the constructor puts the vertices in. */
  function SortByRow(a: Vertex, b: Vertex, c: Vertex): (t: (Vertex, Vertex, Vertex))
    ensures t.0.y <= t.1.y <= t.2.y
  {
    var (p, q) := if a.y > b.y then (b, a) else (a, b);
    if q.y > c.y then
      if p.y > c.y then (c, p, q) else (p, c, q)
    else (p, q, c)
  }

  lemma SortPermutes(a: Vertex, b: Vertex, c: Vertex)
    ensures var (p, q, r) := SortByRow(a, b, c); p.y <= q.y <= r.y && multiset{p, q, r} == multiset{a, b, c}
  {
  }

  /** The pixels of a triangle whose vertices are in row order. */
  predicate Covers(a: Vertex, b: Vertex, c: Vertex, x: int, y: int)
    requires a.y <= b.y <= c.y
  {
    if b.y == c.y then FlatBottom(a, b, c, x, y)
    else if a.y == b.y then FlatTop(a, b, c, x, y)
    else
      var d := Split(a, b, c);
      FlatBottom(a, b, d, x, y) || FlatTop(b, d, c, x, y)
  }

  /** The pixels of the triangle built from three vertices. */
  predicate Paints(a: Vertex, b: Vertex, c: Vertex, x: int, y: int) {
    var (p, q, r) := SortByRow(a, b, c);
    Covers(p, q, r, x, y)
  }

  /** Three vertices in one row, in any order, paint nothing. */
  lemma OneRow(a: Vertex, b: Vertex, c: Vertex, x: int, y: int)
    requires a.y == b.y == c.y
    ensures !Covers(a, b, c, x, y) && !Paints(a, b, c, x, y)
  {
  }

  // ----------------------------------------------------------- order of vertices

  /** Vertices on the same row may change places. */
  lemma TiesDoNotMatter(a: Vertex, b: Vertex, c: Vertex, x: int, y: int)
    requires a.y <= b.y <= c.y
    ensures a.y == b.y ==> (Covers(a, b, c, x, y) <==> Covers(b, a, c, x, y))
    ensures b.y == c.y ==> (Covers(a, b, c, x, y) <==> Covers(a, c, b, x, y))
  {
  }

  lemma SwapFirst(a: Vertex, b: Vertex, c: Vertex, x: int, y: int)
    ensures Paints(a, b, c, x, y) <==> Paints(b, a, c, x, y)
  {
    hide Covers;
    if a.y == b.y <= c.y {
      TiesDoNotMatter(a, b, c, x, y);
    } else if c.y <= a.y == b.y {
      TiesDoNotMatter(c, a, b, x, y);
    }
  }

  lemma SwapLast(a: Vertex, b: Vertex, c: Vertex, x: int, y: int)
    ensures Paints(a, b, c, x, y) <==> Paints(a, c, b, x, y)
  {
    hide Covers;
    if a.y <= b.y == c.y {
      TiesDoNotMatter(a, b, c, x, y);
    } else if b.y == c.y {
      TiesDoNotMatter(b, c, a, x, y);
    }
  }

  /** All six orders of three vertices paint the same pixels, whatever ties there
      are between their rows. */
  lemma AnyOrder(a: Vertex, b: Vertex, c: Vertex, x: int, y: int)
    ensures Paints(a, b, c, x, y) == Paints(a, c, b, x, y) == Paints(b, a, c, x, y)
         == Paints(b, c, a, x, y) == Paints(c, a, b, x, y) == Paints(c, b, a, x, y)
  {
    hide Paints;
    SwapFirst(a, b, c, x, y);
    SwapLast(a, b, c, x, y);
    SwapLast(b, a, c, x, y);
    SwapFirst(a, c, b, x, y);
    SwapFirst(b, c, a, x, y);
  }

  // ------------------------------------------------------------------ arithmetic

  /** The largest coordinate difference whose square fits in 32 bits. */
  const MAX_SIDE: int := 46340

  predicate Near(a: Vertex, b: Vertex) {
    Abs(a.x - b.x) <= MAX_SIDE && Abs(a.y - b.y) <= MAX_SIDE
  }

  predicate Moderate(a: Vertex, b: Vertex, c: Vertex) {
    Near(a, b) && Near(b, c) && Near(a, c)
  }

  lemma ProductFits(del: int, num: int)
    requires 0 <= del <= MAX_SIDE && Abs(num) <= MAX_SIDE
    ensures Abs(del * num) < 0x8000_0000
  {
    assert Abs(del * num) == del * Abs(num);
    assert del * Abs(num) <= MAX_SIDE * Abs(num) <= MAX_SIDE * MAX_SIDE;
  }

  /** Between the rows of its ends an edge is computed without overflow and stays
      between the columns of its ends. */
  lemma EdgeExact(p: Vertex, q: Vertex, y: int)
    requires p.y < q.y && p.y <= y <= q.y && Near(p, q)
    ensures ToI32((y - p.y) * (q.x - p.x)) == (y - p.y) * (q.x - p.x)
    ensures EdgeAt(p, q, y) == p.x + TruncDiv((y - p.y) * (q.x - p.x), q.y - p.y)
    ensures Min(p.x, q.x) <= EdgeAt(p, q, y) <= Max(p.x, q.x)
  {
    var del, num, den := y - p.y, q.x - p.x, q.y - p.y;
    ProductFits(del, num);
    TruncDivFraction(del, num, den);
  }

  /** Column x is not to the right of the edge from p to q as it is drawn: the exact edge
      moved toward p's column by less than a column. */
  predicate NotRight(p: Vertex, q: Vertex, x: int, y: int) {
    var m, e := (x - p.x) * (q.y - p.y), (y - p.y) * (q.x - p.x);
    if q.x >= p.x then m <= e else m < e + (q.y - p.y)
  }

  predicate NotLeft(p: Vertex, q: Vertex, x: int, y: int) {
    var m, e := (x - p.x) * (q.y - p.y), (y - p.y) * (q.x - p.x);
    if q.x <= p.x then m >= e else m > e - (q.y - p.y)
  }

  lemma EdgeSides(p: Vertex, q: Vertex, x: int, y: int)
    requires p.y < q.y && p.y <= y <= q.y && Near(p, q)
    ensures x <= EdgeAt(p, q, y) <==> NotRight(p, q, x, y)
    ensures x >= EdgeAt(p, q, y) <==> NotLeft(p, q, x, y)
  {
    EdgeExact(p, q, y);
    hide EdgeAt, TruncDiv;
    var h, e, m := q.y - p.y, (y - p.y) * (q.x - p.x), (x - p.x) * (q.y - p.y);
    SignOf(y - p.y, q.x - p.x);
    TruncatesToZero(e, h, x - p.x, m);
  }

  lemma SignOf(del: int, num: int)
    requires del >= 0
    ensures num >= 0 ==> del * num >= 0
    ensures num <= 0 ==> del * num <= 0
  {
  }

  lemma TruncatesToZero(e: int, h: int, s: int, m: int)
    requires h > 0 && m == s * h
    ensures e >= 0 ==> (s <= TruncDiv(e, h) <==> m <= e) && (s >= TruncDiv(e, h) <==> m > e - h)
    ensures e <= 0 ==> (s >= TruncDiv(e, h) <==> m >= e) && (s <= TruncDiv(e, h) <==> m < e + h)
  {
    TruncDivBound(e, h);
    hide TruncDiv;
    var t := TruncDiv(e, h);
    var th := t * h;
    assert (s - t) * h == m - th;
    MultipleGrows(s - t, h);
  }

  /** The pixels of a flat-bottomed triangle, by products alone. */
  lemma FlatBottomExactly(a: Vertex, b: Vertex, c: Vertex, x: int, y: int)
    requires a.y <= b.y == c.y && Near(a, b) && Near(a, c)
    ensures FlatBottom(a, b, c, x, y) <==>
              && a.y < b.y && a.y <= y <= b.y
              && if b.x <= c.x then NotLeft(a, b, x, y) && NotRight(a, c, x, y)
                 else NotLeft(a, c, x, y) && NotRight(a, b, x, y)
  {
    hide NotLeft, NotRight, EdgeAt;
    if a.y < b.y && a.y <= y <= b.y {
      EdgeSides(a, b, x, y);
      EdgeSides(a, c, x, y);
    }
  }

  /** And of a flat-topped one. */
  lemma FlatTopExactly(a: Vertex, b: Vertex, c: Vertex, x: int, y: int)
    requires a.y == b.y < c.y && Near(a, c) && Near(b, c)
    ensures FlatTop(a, b, c, x, y) <==>
              && a.y <= y <= c.y
              && if a.x <= b.x then NotLeft(a, c, x, y) && NotRight(b, c, x, y)
                 else NotLeft(b, c, x, y) && NotRight(a, c, x, y)
  {
    hide NotLeft, NotRight, EdgeAt;
    if a.y <= y <= c.y {
      EdgeSides(a, c, x, y);
      EdgeSides(b, c, x, y);
    }
  }

  /** Cutting the long edge is exact 32-bit arithmetic, the cut fits in 16 bits, and
      it lies between the ends of the edge. */
  lemma SplitExact(a: Vertex, b: Vertex, c: Vertex)
    requires a.y <= b.y <= c.y && a.y < c.y && Moderate(a, b, c)
    ensures Split(a, b, c).x == a.x + TruncDiv((b.y - a.y) * (c.x - a.x), c.y - a.y)
    ensures Min(a.x, c.x) <= Split(a, b, c).x <= Max(a.x, c.x)
    ensures Near(a, Split(a, b, c)) && Near(Split(a, b, c), c)
  {
    EdgeExact(a, c, b.y);
  }

  /** The pixels of a triangle with three distinct rows: those between its short sides and
      its long edge bent at the cut, each side as it is drawn. */
  lemma SplitExactly(a: Vertex, b: Vertex, c: Vertex, x: int, y: int)
    requires a.y < b.y < c.y && Moderate(a, b, c)
    ensures var d := Split(a, b, c);
            Covers(a, b, c, x, y) <==>
              || (a.y <= y <= b.y && if b.x <= d.x then NotLeft(a, b, x, y) && NotRight(a, d, x, y)
                                     else NotLeft(a, d, x, y) && NotRight(a, b, x, y))
              || (b.y <= y <= c.y && if b.x <= d.x then NotLeft(b, c, x, y) && NotRight(d, c, x, y)
                                     else NotLeft(d, c, x, y) && NotRight(b, c, x, y))
  {
    SplitExact(a, b, c);
    var d := Split(a, b, c);
    assert d.y == b.y;
    hide NotLeft, NotRight, FlatBottom, FlatTop, Split;
    FlatBottomExactly(a, b, d, x, y);
    FlatTopExactly(b, d, c, x, y);
  }

  /** Two edges from one vertex down to a row never cross. */
  lemma FanOrdered(a: Vertex, l: Vertex, r: Vertex, y: int)
    requires a.y < l.y == r.y && a.y <= y <= l.y && l.x <= r.x && Near(a, l) && Near(a, r)
    ensures EdgeAt(a, l, y) <= EdgeAt(a, r, y)
  {
    EdgeExact(a, l, y);
    EdgeExact(a, r, y);
    ScaleOrder(y - a.y, l.x - a.x, r.x - a.x);
    TruncDivMonotone((y - a.y) * (l.x - a.x), (y - a.y) * (r.x - a.x), l.y - a.y);
  }

  /** Nor do two edges from a row down to one vertex, although each is measured from
      its own upper end. */
  lemma FanFromBelow(l: Vertex, r: Vertex, c: Vertex, y: int)
    requires l.y == r.y < c.y && l.y <= y <= c.y && l.x <= r.x && Near(l, c) && Near(r, c)
    ensures EdgeAt(l, c, y) <= EdgeAt(r, c, y)
  {
    EdgeExact(l, c, y);
    EdgeExact(r, c, y);
    hide EdgeAt, TruncDiv;
    Approach(y - l.y, c.x - r.x, r.x - l.x, c.y - l.y);
  }

  lemma Approach(del: int, u: int, k: int, h: int)
    requires 0 <= del <= h && h > 0 && k >= 0
    ensures TruncDiv(del * (u + k), h) <= TruncDiv(del * u, h) + k
  {
    hide TruncDiv;
    var p, q, dk, kh := del * (u + k), del * u, del * k, k * h;
    assert p == q + dk;
    ScaleUp(del, h, k);
    TruncDivMonotone(p, q + kh, h);
    TruncDivShift(q, h, k);
  }

  /** Every row span that a triangle draws is in order before it is clipped, in the
      upper half and in the lower. */
  lemma SpansOrdered(a: Vertex, b: Vertex, c: Vertex, y: int)
    requires a.y <= b.y <= c.y && Moderate(a, b, c)
    ensures a.y < b.y == c.y && a.y <= y <= b.y ==>
              (if b.x > c.x then EdgeAt(a, c, y) <= EdgeAt(a, b, y) else EdgeAt(a, b, y) <= EdgeAt(a, c, y))
    ensures a.y == b.y < c.y && a.y <= y <= c.y ==>
              (if a.x > b.x then EdgeAt(b, c, y) <= EdgeAt(a, c, y) else EdgeAt(a, c, y) <= EdgeAt(b, c, y))
    ensures a.y < b.y < c.y ==>
              var d := Split(a, b, c);
              && (a.y <= y <= b.y ==>
                    if b.x > d.x then EdgeAt(a, d, y) <= EdgeAt(a, b, y) else EdgeAt(a, b, y) <= EdgeAt(a, d, y))
              && (b.y <= y <= c.y ==>
                    if b.x > d.x then EdgeAt(d, c, y) <= EdgeAt(b, c, y) else EdgeAt(b, c, y) <= EdgeAt(d, c, y))
  {
    hide EdgeAt, Split;
    if a.y < b.y == c.y && a.y <= y <= b.y {
      if b.x > c.x { FanOrdered(a, c, b, y); } else { FanOrdered(a, b, c, y); }
    }
    if a.y == b.y < c.y && a.y <= y <= c.y {
      if a.x > b.x { FanFromBelow(b, a, c, y); } else { FanFromBelow(a, b, c, y); }
    }
    if a.y < b.y < c.y {
      SplitExact(a, b, c);
      var d := Split(a, b, c);
      assert d.y == b.y by { SplitRow(a, b, c); }
      if a.y <= y <= b.y {
        if b.x > d.x { FanOrdered(a, d, b, y); } else { FanOrdered(a, b, d, y); }
      }
      if b.y <= y <= c.y {
        if b.x > d.x { FanFromBelow(d, b, c, y); } else { FanFromBelow(b, d, c, y); }
      }
    }
  }

  lemma SplitRow(a: Vertex, b: Vertex, c: Vertex)
    requires a.y < c.y
    ensures Split(a, b, c).y == b.y
  {
  }
}
