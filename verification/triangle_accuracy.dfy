/** How far the painted triangle is from the exact one.  A row's exact span is
    measured in real columns; painted pixels are whole columns. */
module TriangleAccuracy {
  import opened Machine
  import opened Triangles

  /** How many columns the line through p and q moves in a number of rows. */
  ghost function Run(p: Vertex, q: Vertex, rows: int): real
    requires p.y < q.y
  {
    Slope(p, q) * rows as real
  }

  ghost function Slope(p: Vertex, q: Vertex): real
    requires p.y < q.y
  {
    (q.x - p.x) as real / (q.y - p.y) as real
  }

  /** Where the line through p and q crosses row y. */
  ghost function Crossing(p: Vertex, q: Vertex, y: int): real
    requires p.y < q.y
  {
    p.x as real + Run(p, q, y - p.y)
  }

  /** x lies in the closed span between u and v, whichever is the left one. */
  ghost predicate InSpan(u: real, v: real, x: int) {
    u <= x as real <= v || v <= x as real <= u
  }

  /** x lies less than `slack` columns outside that span, or inside it. */
  ghost predicate NearSpan(u: real, v: real, slack: real, x: int) {
    (if u < v then u else v) - slack < x as real < (if u < v then v else u) + slack
  }

  // ------------------------------------------------------------------ real lines

  lemma ProductAsReal(m: int, n: int)
    ensures (m * n) as real == m as real * n as real
  {
  }

  lemma RatioOfMultiple(k: real, d: real)
    requires d > 0.0 && -d < k * d < d
    ensures -1.0 < k < 1.0
  {
  }

  lemma PartOfMultiple(k: real, s: real, d: real)
    requires 0.0 <= s <= d && -1.0 < k * d < 1.0
    ensures -1.0 < k * s < 1.0
  {
    assert k * d == k * s + k * (d - s);
    if k >= 0.0 {
      assert k * (d - s) >= 0.0 && k * s >= 0.0;
    } else {
      assert k * (d - s) <= 0.0 && k * s <= 0.0;
    }
  }

  /** A quotient that truncates is within one of the ratio. */
  lemma QuotientClose(t: real, del: real, num: real, den: real, m: real, td: real, dn: real, md: real)
    requires den > 0.0 && m * den == num && td == t * den && dn == del * num && md == m * del
    requires -den < td - dn < den
    ensures -1.0 < t - md < 1.0
  {
    var k := t - md;
    assert md * den == del * (m * den);
    assert k * den == td - dn;
    RatioOfMultiple(k, den);
  }

  /** Two lines from one point that are less than a column apart h rows away are
      less than a column apart at every row in between. */
  lemma Fan(m: real, n: real, s: real, h: real, mh: real, nh: real, ms: real, ns: real)
    requires mh == m * h && nh == n * h && ms == m * s && ns == n * s
    requires 0.0 <= s <= h && -1.0 < mh - nh < 1.0
    ensures -1.0 < ms - ns < 1.0
  {
    var k := m - n;
    assert k * h == mh - nh;
    PartOfMultiple(k, s, h);
    assert k * s == ms - ns;
  }

  lemma RunsWhole(p: Vertex, q: Vertex)
    requires p.y < q.y
    ensures Run(p, q, q.y - p.y) == (q.x - p.x) as real
    ensures Run(p, q, 0) == 0.0
  {
  }

  lemma RunsFan(p: Vertex, q: Vertex, p': Vertex, q': Vertex, s: int, h: int)
    requires p.y < q.y && p'.y < q'.y && 0 <= s <= h
    requires -1.0 < Run(p, q, h) - Run(p', q', h) < 1.0
    ensures -1.0 < Run(p, q, s) - Run(p', q', s) < 1.0
  {
    Fan(Slope(p, q), Slope(p', q'), s as real, h as real, Run(p, q, h), Run(p', q', h), Run(p, q, s), Run(p', q', s));
  }

  lemma RunsOrder(p: Vertex, q: Vertex, p': Vertex, q': Vertex, s: int, h: int)
    requires p.y < q.y && p'.y < q'.y && 0 <= s && 0 < h && Run(p, q, h) <= Run(p', q', h)
    ensures Run(p, q, s) <= Run(p', q', s)
  {
  }

  lemma RunQuotient(p: Vertex, q: Vertex, del: int)
    requires p.y < q.y
    ensures -1.0 < TruncDiv(del * (q.x - p.x), q.y - p.y) as real - Run(p, q, del) < 1.0
  {
    hide TruncDiv;
    var num, den := q.x - p.x, q.y - p.y;
    var t := TruncDiv(del * num, den);
    TruncDivBound(del * num, den);
    ProductAsReal(t, den);
    ProductAsReal(del, num);
    QuotientClose(t as real, del as real, num as real, den as real, Slope(p, q),
                  (t * den) as real, (del * num) as real, Run(p, q, del));
  }

  // -------------------------------------------------------------- computed edges

  /** A computed edge is within a column of the exact one, so it lets through every
      whole column on the inner side and none a full column beyond. */
  lemma EdgeClose(p: Vertex, q: Vertex, y: int)
    requires p.y < q.y && p.y <= y <= q.y && Near(p, q)
    ensures -1.0 < EdgeAt(p, q, y) as real - Crossing(p, q, y) < 1.0
  {
    hide Run, TruncDiv;
    EdgeExact(p, q, y);
    RunQuotient(p, q, y - p.y);
  }

  /** The crossing measured from the lower end. */
  lemma FromBelow(p: Vertex, q: Vertex, y: int)
    requires p.y < q.y
    ensures Crossing(p, q, y) == q.x as real - Run(p, q, q.y - y)
  {
  }

  lemma CrossingsFromAbove(a: Vertex, l: Vertex, r: Vertex, y: int)
    requires a.y < l.y == r.y && a.y <= y && l.x <= r.x
    ensures Crossing(a, l, y) <= Crossing(a, r, y)
  {
    hide Run;
    RunsWhole(a, l);
    RunsWhole(a, r);
    RunsOrder(a, l, a, r, y - a.y, l.y - a.y);
  }

  lemma CrossingsFromBelow(l: Vertex, r: Vertex, c: Vertex, y: int)
    requires l.y == r.y < c.y && y <= c.y && l.x <= r.x
    ensures Crossing(l, c, y) <= Crossing(r, c, y)
  {
    hide Run;
    RunsWhole(l, c);
    RunsWhole(r, c);
    FromBelow(l, c, y);
    FromBelow(r, c, y);
    RunsOrder(r, c, l, c, c.y - y, c.y - l.y);
  }

  // ------------------------------------------------------ two vertices in one row

  /** A flat-bottomed triangle: every whole column of the closed triangle is painted
      and nothing a full column outside it is. */
  lemma FlatBottomAccurate(a: Vertex, b: Vertex, c: Vertex, x: int, y: int)
    requires a.y < b.y == c.y && Near(a, b) && Near(a, c)
    ensures FlatBottom(a, b, c, x, y) ==> a.y <= y <= b.y && NearSpan(Crossing(a, b, y), Crossing(a, c, y), 1.0, x)
    ensures a.y <= y <= b.y && InSpan(Crossing(a, b, y), Crossing(a, c, y), x) ==> FlatBottom(a, b, c, x, y)
  {
    hide EdgeAt, Crossing;
    if a.y <= y <= b.y {
      EdgeClose(a, b, y);
      EdgeClose(a, c, y);
      if b.x > c.x {
        CrossingsFromAbove(a, c, b, y);
      } else {
        CrossingsFromAbove(a, b, c, y);
      }
    }
  }

  /** Likewise for a flat-topped one. */
  lemma FlatTopAccurate(a: Vertex, b: Vertex, c: Vertex, x: int, y: int)
    requires a.y == b.y < c.y && Near(a, c) && Near(b, c)
    ensures FlatTop(a, b, c, x, y) ==> a.y <= y <= c.y && NearSpan(Crossing(a, c, y), Crossing(b, c, y), 1.0, x)
    ensures a.y <= y <= c.y && InSpan(Crossing(a, c, y), Crossing(b, c, y), x) ==> FlatTop(a, b, c, x, y)
  {
    hide EdgeAt, Crossing;
    if a.y <= y <= c.y {
      EdgeClose(a, c, y);
      EdgeClose(b, c, y);
      if a.x > b.x {
        CrossingsFromBelow(b, a, c, y);
      } else {
        CrossingsFromBelow(a, b, c, y);
      }
    }
  }

  // ------------------------------------------------- three vertices, three rows

  ghost predicate Proper(a: Vertex, b: Vertex, c: Vertex) {
    a.y < b.y < c.y && Moderate(a, b, c)
  }

  /** The cut is within a column of where the long edge really crosses the middle
      vertex's row. */
  lemma SplitClose(a: Vertex, b: Vertex, c: Vertex)
    requires Proper(a, b, c)
    ensures -1.0 < Split(a, b, c).x as real - Crossing(a, c, b.y) < 1.0
  {
    SplitExact(a, b, c);
    EdgeExact(a, c, b.y);
    EdgeClose(a, c, b.y);
  }

  /** The upper part of the long edge, bent to the cut. */
  lemma UpperBend(a: Vertex, b: Vertex, c: Vertex, y: int)
    requires Proper(a, b, c) && a.y <= y <= b.y
    ensures -1.0 < Crossing(a, Split(a, b, c), y) - Crossing(a, c, y) < 1.0
  {
    SplitClose(a, b, c);
    var d := Split(a, b, c);
    hide Run, Split;
    RunsWhole(a, d);
    RunsFan(a, d, a, c, y - a.y, b.y - a.y);
  }

  /** The lower part. */
  lemma LowerBend(a: Vertex, b: Vertex, c: Vertex, y: int)
    requires Proper(a, b, c) && b.y <= y <= c.y
    ensures -1.0 < Crossing(Split(a, b, c), c, y) - Crossing(a, c, y) < 1.0
  {
    SplitClose(a, b, c);
    var d := Split(a, b, c);
    hide Run, Split;
    FromBelow(d, c, y);
    FromBelow(a, c, y);
    FromBelow(a, c, b.y);
    RunsWhole(d, c);
    RunsFan(d, c, a, c, c.y - y, c.y - b.y);
  }

  /** The boundary of a row that is not on the long edge. */
  ghost function ShortSide(a: Vertex, b: Vertex, c: Vertex, y: int): real
    requires Proper(a, b, c)
  {
    if y <= b.y then Crossing(a, b, y) else Crossing(b, c, y)
  }

  /** A triangle with three distinct rows: nothing two columns outside a row's exact
      span is painted, and every whole column of the span is, unless it is within
      one column of the long edge. */
  lemma SplitAccurate(a: Vertex, b: Vertex, c: Vertex, x: int, y: int)
    requires Proper(a, b, c)
    ensures Covers(a, b, c, x, y) ==>
              a.y <= y <= c.y && NearSpan(Crossing(a, c, y), ShortSide(a, b, c, y), 2.0, x)
    ensures (&& a.y <= y <= c.y
             && InSpan(Crossing(a, c, y), ShortSide(a, b, c, y), x)
             && !NearSpan(Crossing(a, c, y), Crossing(a, c, y), 1.0, x)) ==> Covers(a, b, c, x, y)
  {
    var d := Split(a, b, c);
    SplitExact(a, b, c);
    MiddleVertex(a, b, c);
    FlatBottomAccurate(a, b, d, x, y);
    FlatTopAccurate(b, d, c, x, y);
    if a.y <= y <= b.y {
      UpperBend(a, b, c, y);
    }
    if b.y <= y <= c.y {
      LowerBend(a, b, c, y);
    }
    hide Crossing, Split, FlatBottom, FlatTop;
  }

  lemma MiddleVertex(a: Vertex, b: Vertex, c: Vertex)
    requires Proper(a, b, c)
    ensures Crossing(a, b, b.y) == b.x as real == Crossing(b, c, b.y)
  {
  }

  // ------------------------------------------------- what the split edge misses

  /** On an edge that runs to the right the quotient truncates downward, on one that
      runs to the left upward, so whole columns compare with the computed edge as they
      do with the exact one. */
  lemma EdgeRounds(p: Vertex, q: Vertex, y: int, x: int)
    requires p.y < q.y && p.y <= y <= q.y && Near(p, q)
    ensures q.x >= p.x ==> (x <= EdgeAt(p, q, y) <==> x as real <= Crossing(p, q, y))
    ensures q.x <= p.x ==> (x >= EdgeAt(p, q, y) <==> x as real >= Crossing(p, q, y))
  {
    hide Run, TruncDiv;
    EdgeExact(p, q, y);
    RunRounds(p, q, y - p.y, x - p.x);
  }

  lemma RunRounds(p: Vertex, q: Vertex, del: int, s: int)
    requires p.y < q.y && del >= 0
    ensures q.x >= p.x ==> (s <= TruncDiv(del * (q.x - p.x), q.y - p.y) <==> s as real <= Run(p, q, del))
    ensures q.x <= p.x ==> (s >= TruncDiv(del * (q.x - p.x), q.y - p.y) <==> s as real >= Run(p, q, del))
  {
    var num, den := q.x - p.x, q.y - p.y;
    SignOf(del, num);
    QuotientRounds(del * num, den, s, s * den);
    hide TruncDiv, Run;
    RunCompare(p, q, del, s);
  }

  lemma QuotientRounds(product: int, den: int, s: int, sd: int)
    requires den > 0 && sd == s * den
    ensures product >= 0 ==> (s <= TruncDiv(product, den) <==> sd <= product)
    ensures product <= 0 ==> (s >= TruncDiv(product, den) <==> sd >= product)
  {
    TruncDivBound(product, den);
    hide TruncDiv;
    var t := TruncDiv(product, den);
    var td := t * den;
    assert (s - t) * den == sd - td;
    MultipleGrows(s - t, den);
  }

  /** Comparing a whole number of columns with the exact run, in integers. */
  lemma RunCompare(p: Vertex, q: Vertex, del: int, s: int)
    requires p.y < q.y
    ensures s * (q.y - p.y) <= del * (q.x - p.x) <==> s as real <= Run(p, q, del)
    ensures s * (q.y - p.y) >= del * (q.x - p.x) <==> s as real >= Run(p, q, del)
  {
    var num, den := q.x - p.x, q.y - p.y;
    SlopeTimes(p, q);
    ProductAsReal(s, den);
    ProductAsReal(del, num);
    hide Slope;
    RatioCompare(s as real, den as real, Slope(p, q), num as real, del as real,
                 (s * den) as real, (del * num) as real, Run(p, q, del));
  }

  lemma SlopeTimes(p: Vertex, q: Vertex)
    requires p.y < q.y
    ensures Slope(p, q) * (q.y - p.y) as real == (q.x - p.x) as real
  {
  }

  lemma RatioCompare(s: real, den: real, m: real, num: real, del: real, sd: real, product: real, md: real)
    requires den > 0.0 && m * den == num && sd == s * den && product == del * num && md == m * del
    ensures s <= md <==> sd <= product
    ensures s >= md <==> sd >= product
  {
    var k := s - md;
    assert md * den == del * (m * den);
    assert k * den == sd - product;
  }

  /** The long edge as it is drawn: bent at the cut. */
  ghost function Bend(a: Vertex, b: Vertex, c: Vertex, y: int): real
    requires Proper(a, b, c)
  {
    var d := Split(a, b, c);
    if y <= b.y then Crossing(a, d, y) else Crossing(d, c, y)
  }

  /** Two lines down from one vertex that are in order at one row are in order at
      every row. */
  lemma OrderedFromAbove(a: Vertex, p: Vertex, q: Vertex, row: int, y: int)
    requires a.y < p.y && a.y < q.y && a.y < row && a.y <= y
    requires Crossing(a, p, row) <= Crossing(a, q, row)
    ensures Crossing(a, p, y) <= Crossing(a, q, y)
  {
    hide Run;
    RunsOrder(a, p, a, q, y - a.y, row - a.y);
  }

  lemma OrderedFromBelow(p: Vertex, q: Vertex, c: Vertex, row: int, y: int)
    requires p.y < c.y && q.y < c.y && row < c.y && y <= c.y
    requires Crossing(p, c, row) <= Crossing(q, c, row)
    ensures Crossing(p, c, y) <= Crossing(q, c, y)
  {
    hide Run, Crossing;
    FromBelow(p, c, row);
    FromBelow(q, c, row);
    FromBelow(p, c, y);
    FromBelow(q, c, y);
    RunsOrder(q, c, p, c, c.y - y, c.y - row);
  }

  /** The crossings at the middle vertex's row. */
  lemma MiddleRow(a: Vertex, b: Vertex, c: Vertex)
    requires Proper(a, b, c)
    ensures var d := Split(a, b, c);
            && d.y == b.y && Proper(a, d, c)
            && Crossing(a, b, b.y) == b.x as real == Crossing(b, c, b.y)
            && Crossing(a, d, b.y) == d.x as real == Crossing(d, c, b.y)
  {
    SplitRow(a, b, c);
    SplitExact(a, b, c);
    var d := Split(a, b, c);
    hide Split;
    MiddleVertex(a, b, c);
    MiddleVertex(a, d, c);
  }

  /** On each row the short side, the bent edge and the exact long edge are in the
      order that they have at the middle vertex's row. */
  lemma SidesInOrder(a: Vertex, b: Vertex, c: Vertex, y: int)
    requires Proper(a, b, c) && a.y <= y <= c.y
    ensures var d, cut := Split(a, b, c), Crossing(a, c, b.y);
            && (b.x as real <= cut ==> ShortSide(a, b, c, y) <= Crossing(a, c, y))
            && (b.x as real >= cut ==> ShortSide(a, b, c, y) >= Crossing(a, c, y))
            && (d.x as real <= cut ==> Bend(a, b, c, y) <= Crossing(a, c, y))
            && (d.x as real >= cut ==> Bend(a, b, c, y) >= Crossing(a, c, y))
  {
    MiddleRow(a, b, c);
    var d := Split(a, b, c);
    hide Crossing, Split;
    if y <= b.y {
      if b.x as real <= Crossing(a, c, b.y) { OrderedFromAbove(a, b, c, b.y, y); }
      if b.x as real >= Crossing(a, c, b.y) { OrderedFromAbove(a, c, b, b.y, y); }
      if d.x as real <= Crossing(a, c, b.y) { OrderedFromAbove(a, d, c, b.y, y); }
      if d.x as real >= Crossing(a, c, b.y) { OrderedFromAbove(a, c, d, b.y, y); }
    } else {
      if b.x as real <= Crossing(a, c, b.y) { OrderedFromBelow(b, a, c, b.y, y); }
      if b.x as real >= Crossing(a, c, b.y) { OrderedFromBelow(a, b, c, b.y, y); }
      if d.x as real <= Crossing(a, c, b.y) { OrderedFromBelow(d, a, c, b.y, y); }
      if d.x as real >= Crossing(a, c, b.y) { OrderedFromBelow(a, d, c, b.y, y); }
    }
  }

  /** Where the cut falls on the middle vertex's side of the exact crossing, nothing is
      drawn beyond the bent edge. */
  lemma DrawnWithinBend(a: Vertex, b: Vertex, c: Vertex, x: int, y: int)
    requires Proper(a, b, c) && Covers(a, b, c, x, y)
    ensures var d, cut := Split(a, b, c), Crossing(a, c, b.y);
            && (b.x as real <= cut && d.x as real < cut ==> x as real <= Bend(a, b, c, y))
            && (b.x as real >= cut && d.x as real > cut ==> x as real >= Bend(a, b, c, y))
  {
    MiddleRow(a, b, c);
    SplitExact(a, b, c);
    EdgeExact(a, c, b.y);
    var d := Split(a, b, c);
    EdgeRounds(a, c, b.y, d.x);
    EdgeRounds(a, c, b.y, b.x);
    if y <= b.y && FlatBottom(a, b, d, x, y) {
      EdgeRounds(a, d, y, x);
    }
    if FlatTop(b, d, c, x, y) {
      EdgeRounds(d, c, y, x);
    }
    hide Crossing, Split, EdgeAt;
  }

  /** Exactly what the cut costs: of the lattice points of the closed triangle, those
      are painted that lie in the triangle whose long edge is bent at the cut. */
  lemma MissedExactly(a: Vertex, b: Vertex, c: Vertex, x: int, y: int)
    requires Proper(a, b, c) && a.y <= y <= c.y
    requires InSpan(Crossing(a, c, y), ShortSide(a, b, c, y), x)
    ensures Covers(a, b, c, x, y) <==> InSpan(Bend(a, b, c, y), ShortSide(a, b, c, y), x)
  {
    MiddleRow(a, b, c);
    SidesInOrder(a, b, c, y);
    var d := Split(a, b, c);
    SplitExact(a, b, c);
    FlatBottomAccurate(a, b, d, x, y);
    FlatTopAccurate(b, d, c, x, y);
    if Covers(a, b, c, x, y) {
      DrawnWithinBend(a, b, c, x, y);
    }
    hide Crossing, Split, FlatBottom, FlatTop;
  }

  /** The cut is exact, or it was truncated away from the middle vertex. */
  predicate CutOutward(a: Vertex, b: Vertex, c: Vertex)
    requires a.y < c.y
  {
    var num, den, product := c.x - a.x, c.y - a.y, (b.y - a.y) * (c.x - a.x);
    product % den == 0 || (num < 0 <==> (b.x - a.x) * den < product)
  }

  lemma CutSign(num: int, product: int, den: int, s: int, t: int, sd: int, td: int)
    requires den > 0 && (num >= 0 ==> product >= 0) && (num <= 0 ==> product <= 0)
    requires t == TruncDiv(product, den) && sd == s * den && td == t * den
    requires product % den == 0 || (num < 0 <==> sd < product)
    ensures sd <= product ==> td >= product
    ensures sd >= product ==> td <= product
  {
    TruncDivBound(product, den);
    if product % den == 0 {
      TruncDivWhole(product, den);
    } else if sd == product {
      QuotientIs(product, den, s);
    }
    hide TruncDiv;
  }

  lemma CutSides(a: Vertex, b: Vertex, c: Vertex)
    requires Proper(a, b, c) && CutOutward(a, b, c)
    ensures var d, cut := Split(a, b, c), Crossing(a, c, b.y);
            && (b.x as real <= cut ==> d.x as real >= cut)
            && (b.x as real >= cut ==> d.x as real <= cut)
  {
    SplitExact(a, b, c);
    var num, den, del := c.x - a.x, c.y - a.y, b.y - a.y;
    var s, t := b.x - a.x, Split(a, b, c).x - a.x;
    SignOf(del, num);
    CutSign(num, del * num, den, s, t, s * den, t * den);
    hide Run, TruncDiv, Split;
    RunCompare(a, c, del, s);
    RunCompare(a, c, del, t);
  }

  /** Under that condition no lattice point of the closed triangle is missed. */
  lemma NothingMissed(a: Vertex, b: Vertex, c: Vertex, x: int, y: int)
    requires Proper(a, b, c) && CutOutward(a, b, c) && a.y <= y <= c.y
    requires InSpan(Crossing(a, c, y), ShortSide(a, b, c, y), x)
    ensures Covers(a, b, c, x, y)
  {
    hide Crossing, Split, CutOutward, ShortSide, Bend, Covers;
    CutSides(a, b, c);
    SidesInOrder(a, b, c, y);
    MissedExactly(a, b, c, x, y);
  }

  /** The exception is real: here the cut moves the long edge off a pixel that lies
      exactly on it. */
  lemma LongEdgeMissed()
    ensures var a, b, c := Vertex(0, 0), Vertex(-5, 5), Vertex(4, 8);
            && Proper(a, b, c)
            && InSpan(Crossing(a, c, 2), ShortSide(a, b, c, 2), 1)
            && !Covers(a, b, c, 1, 2)
  {
  }
}
