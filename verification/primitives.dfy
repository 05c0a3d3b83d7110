/** The display objects and the loops that paint them into a pixel buffer.

    A buffer is 240 rows of 512 16-bit words, of which the first 320 of a row are
    on the screen. */
module Primitives {
  import opened Machine
  import Bresenham
  import Triangles

  const WIDTH: int := 320
  const HEIGHT: int := 240
  const STRIDE: int := 512
  const SIZE: nat := 240 * 512

  const ERASE_COLOR: u16 := 0x0000
  const TRANSPARENT: u16 := 0xFFFF

  predicate OnScreen(x: int, y: int) {
    0 <= x < WIDTH && 0 <= y < HEIGHT
  }

  /** The word that Pixel::draw addresses: y rows of 1024 bytes and x words of 2. */
  function Index(x: int, y: int): (i: nat)
    requires OnScreen(x, y)
    ensures i < SIZE && Column(i) == x && Row(i) == y
  {
    y * STRIDE + x
  }

  function Column(i: nat): nat { i % STRIDE }

  function Row(i: nat): nat { i / STRIDE }

  predicate Shown(i: nat) {
    OnScreen(Column(i), Row(i))
  }

  // --------------------------------------------------------------------- objects

  datatype Shape =
    | Pixel(px: i16, py: i16)
    | Line(x1: i16, y1: i16, x2: i16, y2: i16)
    | Rectangle(left: i16, top: i16, width: i16, height: i16)
    | Triangle(a: Triangles.Vertex, b: Triangles.Vertex, c: Triangles.Vertex)
    | Image(pixels: seq<u16>, left: i16, top: i16, width: i16, height: i16)
  {
    /** Triangles hold their vertices in row order, as the constructor leaves them,
        and images have all their pixels. */
    predicate Valid() {
      && (Triangle? ==> a.y <= b.y <= c.y)
      && (Image? && width > 0 && height > 0 ==> |pixels| >= width * height)
    }
  }

  function NewTriangle(a: Triangles.Vertex, b: Triangles.Vertex, c: Triangles.Vertex): (s: Shape)
    ensures s.Triangle? && s.Valid()
    ensures forall x, y :: Triangles.Covers(s.a, s.b, s.c, x, y) <==> Triangles.Paints(a, b, c, x, y)
  {
    var (p, q, r) := Triangles.SortByRow(a, b, c);
    Triangle(p, q, r)
  }

  datatype DisplayObject = DisplayObject(shape: Shape, color: u16, frameId: int)

  predicate InBox(left: int, top: int, width: int, height: int, x: int, y: int) {
    left <= x < left + width && top <= y < top + height
  }

  datatype Paint = Clear | Ink(color: u16)

  /** What an object puts at a point: nothing, or a colour.  An image in the erase
      colour is a plain rectangle; otherwise its transparent pixels are skipped. */
  function PaintAt(o: DisplayObject, x: int, y: int): Paint
    requires o.shape.Valid()
  {
    match o.shape
    case Pixel(px, py) =>
      if x == px && y == py then Ink(o.color) else Clear
    case Line(x1, y1, x2, y2) =>
      if Bresenham.Covers(x1, y1, x2, y2, x, y) then Ink(o.color) else Clear
    case Rectangle(left, top, width, height) =>
      if InBox(left, top, width, height, x, y) then Ink(o.color) else Clear
    case Triangle(a, b, c) =>
      if Triangles.Covers(a, b, c, x, y) then Ink(o.color) else Clear
    case Image(pixels, left, top, width, height) =>
      if !InBox(left, top, width, height, x, y) then Clear
      else if o.color == ERASE_COLOR then Ink(ERASE_COLOR)
      else
        InImage(x - left, y - top, width, height);
        var p := pixels[(y - top) * width + (x - left)];
        if p == TRANSPARENT then Clear else Ink(p)
  }

  lemma InImage(i: int, j: int, width: int, height: int)
    requires 0 <= i < width && 0 <= j < height
    ensures 0 <= j * width + i < width * height
  {
    assert (j + 1) * width <= height * width;
  }

  function Blend(old_: u16, p: Paint): u16 {
    match p
    case Clear => old_
    case Ink(color) => color
  }

  /** The buffer after an object has been painted over it. */
  function Painted(s: seq<u16>, o: DisplayObject): (t: seq<u16>)
    requires |s| == SIZE && o.shape.Valid()
    ensures |t| == SIZE
    ensures forall i :: 0 <= i < SIZE ==>
              t[i] == if Shown(i) then Blend(s[i], PaintAt(o, Column(i), Row(i))) else s[i]
  {
    seq(SIZE, i requires 0 <= i < SIZE => if Shown(i) then Blend(s[i], PaintAt(o, Column(i), Row(i))) else s[i])
  }

  // --------------------------------------------------- what is drawn, kind by kind

  /** The words on the screen at the points of a region take a colour, and no others. */
  ghost predicate Filled(now: seq<u16>, was: seq<u16>, color: u16, region: (int, int) -> bool) {
    && |now| == |was| == SIZE
    && forall i :: 0 <= i < SIZE ==> now[i] == if Shown(i) && region(Column(i), Row(i)) then color else was[i]
  }

  /** A word of an image is put at (x, y), or leaves that alone if it is transparent. */
  ghost predicate CopiedTo(now: seq<u16>, was: seq<u16>, p: u16, x: int, y: int)
    requires |now| == |was| == SIZE
  {
    OnScreen(x, y) ==> now[Index(x, y)] == if p == 0xFFFF then was[Index(x, y)] else p
  }

  /** Pixel k of an image lands in column k % width and row k / width from its corner,
      unless it is transparent or that is off the screen; nothing else changes. */
  ghost predicate Copied(now: seq<u16>, was: seq<u16>, pixels: seq<u16>, left: int, top: int, width: int, height: int)
    requires width > 0 && height > 0 ==> |pixels| >= width * height
  {
    && |now| == |was| == SIZE
    && (width > 0 && height > 0 ==>
          forall k: nat :: k < width * height ==> CopiedTo(now, was, pixels[k], left + k % width, top + k / width))
    && forall i :: 0 <= i < SIZE && !(Shown(i) && left <= Column(i) < left + width && top <= Row(i) < top + height) ==>
         now[i] == was[i]
  }

  /** What each kind of object draws. */
  ghost predicate Draws(o: DisplayObject, now: seq<u16>, was: seq<u16>)
    requires o.shape.Valid()
  {
    match o.shape
    case Pixel(px, py) => Filled(now, was, o.color, (x, y) => x == px && y == py)
    case Line(x1, y1, x2, y2) => Filled(now, was, o.color, (x, y) => Bresenham.Covers(x1, y1, x2, y2, x, y))
    case Rectangle(left, top, width, height) =>
      Filled(now, was, o.color, (x, y) => left <= x < left + width && top <= y < top + height)
    case Triangle(a, b, c) => Filled(now, was, o.color, (x, y) => Triangles.Covers(a, b, c, x, y))
    case Image(pixels, left, top, width, height) =>
      if o.color == 0 then Filled(now, was, 0, (x, y) => left <= x < left + width && top <= y < top + height)
      else Copied(now, was, pixels, left, top, width, height)
  }

  lemma RowAndColumn(k: nat, width: nat, height: nat) returns (i: nat, j: nat)
    requires width > 0 && k < width * height
    ensures i == k % width < width && j == k / width < height && k == j * width + i
  {
    i, j := k % width, k / width;
    assert k == (k / width) * width + k % width;
    if k / width >= height {
      ScaleOrder(width, height, k / width);
    }
  }

  /** An image is painted pixel by pixel. */
  lemma ImageIsCopied(was: seq<u16>, o: DisplayObject)
    requires |was| == SIZE && o.shape.Image? && o.shape.Valid() && o.color != ERASE_COLOR
    ensures Copied(Painted(was, o), was, o.shape.pixels, o.shape.left, o.shape.top, o.shape.width, o.shape.height)
  {
    var Image(pixels, left, top, width, height) := o.shape;
    ImageStays(was, o);
    hide CopiedTo, PaintAt, Column, Row;
    if width > 0 && height > 0 {
      forall k: nat | k < width * height
        ensures CopiedTo(Painted(was, o), was, pixels[k], left + k % width, top + k / width)
      {
        var i, j := RowAndColumn(k, width, height);
        ImageWord(was, o, i, j, k);
      }
    }
  }

  lemma ImageStays(was: seq<u16>, o: DisplayObject)
    requires |was| == SIZE && o.shape.Image? && o.shape.Valid()
    ensures var Image(_, left, top, width, height) := o.shape;
            forall i :: 0 <= i < SIZE && !(Shown(i) && InBox(left, top, width, height, Column(i), Row(i))) ==>
              Painted(was, o)[i] == was[i]
  {
    hide Column, Row;
  }

  lemma ImageWord(was: seq<u16>, o: DisplayObject, i: nat, j: nat, k: nat)
    requires |was| == SIZE && o.shape.Image? && o.shape.Valid() && o.color != ERASE_COLOR
    requires i < o.shape.width && j < o.shape.height && k == j * o.shape.width + i < |o.shape.pixels|
    ensures CopiedTo(Painted(was, o), was, o.shape.pixels[k], o.shape.left + i, o.shape.top + j)
  {
    var x, y := o.shape.left + i, o.shape.top + j;
    if OnScreen(x, y) {
      ImagePoint(o, x, y, k);
      IndexIs(x, y);
      hide Column, Row, PaintAt, Index;
    }
  }

  lemma IndexIs(x: int, y: int)
    requires OnScreen(x, y)
    ensures Index(x, y) < SIZE && Column(Index(x, y)) == x && Row(Index(x, y)) == y && Shown(Index(x, y))
  {
  }

  lemma ImagePoint(o: DisplayObject, x: int, y: int, k: nat)
    requires o.shape.Image? && o.shape.Valid() && o.color != ERASE_COLOR
    requires InBox(o.shape.left, o.shape.top, o.shape.width, o.shape.height, x, y)
    requires k == (y - o.shape.top) * o.shape.width + (x - o.shape.left) < |o.shape.pixels|
    ensures PaintAt(o, x, y) == if o.shape.pixels[k] == 0xFFFF then Clear else Ink(o.shape.pixels[k])
  {
  }

  /** Painting an object is drawing what its kind draws. */
  lemma PaintedIsDrawn(was: seq<u16>, o: DisplayObject)
    requires |was| == SIZE && o.shape.Valid()
    ensures Draws(o, Painted(was, o), was)
  {
    hide Column, Row, Triangles.Covers, Bresenham.Covers, Copied;
    if o.shape.Image? && o.color != ERASE_COLOR {
      ImageIsCopied(was, o);
    }
  }

  // ---------------------------------------------------------------------- pixels

  /** Pixel::draw: off-screen points are ignored. */
  method PutPixel(buf: array<u16>, x: i16, y: i16, color: u16)
    requires buf.Length == SIZE
    modifies buf
    ensures forall i :: 0 <= i < SIZE ==>
              buf[i] == if Shown(i) && Column(i) == x && Row(i) == y then color else old(buf[i])
    ensures 0 <= x < 320 && 0 <= y < 240 ==> buf[512 * y + x] == color
  {
    if x < 0 || x >= WIDTH || y < 0 || y >= HEIGHT {
      return;
    }
    buf[Index(x, y)] := color;
  }

  /** The part of a line before major coordinate `bound`. */
  ghost predicate PartOfLine(s: Bresenham.Segment, bound: int, x: int, y: int) {
    var a, b := if s.steep then y else x, if s.steep then x else y;
    s.a1 <= a < bound && a <= s.a2 && b == s.At(a)
  }

  ghost predicate LinePainted(now: seq<u16>, was: seq<u16>, s: Bresenham.Segment, bound: int, color: u16)
    requires |now| == |was| == SIZE
  {
    forall i :: 0 <= i < SIZE ==>
      now[i] == if Shown(i) && PartOfLine(s, bound, Column(i), Row(i)) then color else was[i]
  }

  /** One pixel more. */
  method PlotNext(buf: array<u16>, s: Bresenham.Segment, x: int, y: int, color: u16, ghost was: seq<u16>)
    requires buf.Length == SIZE == |was| && s.a1 <= x <= s.a2 && y == s.At(x)
    requires -0x8000 <= x < 0x8000 && -0x8000 <= y < 0x8000
    requires LinePainted(buf[..], was, s, x, color)
    modifies buf
    ensures LinePainted(buf[..], was, s, x + 1, color)
  {
    hide Bresenham.Segment.At, Shown;
    if s.steep {
      PutPixel(buf, ToI16(y), ToI16(x), color);
    } else {
      PutPixel(buf, ToI16(x), ToI16(y), color);
    }
  }

  /** The loop of Line::draw, after the swaps. */
  method DrawSegment(buf: array<u16>, s: Bresenham.Segment, color: u16)
    requires buf.Length == SIZE && s.a1 <= s.a2 && s.Dy() <= s.Dx()
    requires -0x8000 <= s.a1 && s.a2 < 0x8000 && -0x8000 <= s.b1 < 0x8000 && -0x8000 <= s.b2 < 0x8000
    modifies buf
    ensures LinePainted(buf[..], old(buf[..]), s, s.a2 + 1, color)
  {
    hide Bresenham.Err, Bresenham.Segment.At, Bresenham.ErrAt, Bresenham.Cross, LinePainted;
    var dx := s.a2 - s.a1;
    var dy := Abs(s.b2 - s.b1);
    var err := -(dx / 2);
    var y := s.b1;
    var yStep := if s.b1 < s.b2 then 1 else -1;
    Bresenham.FirstPixel(s);
    var x := s.a1;
    NothingPainted(buf[..], s, color);
    while x <= s.a2
      invariant s.a1 <= x <= s.a2 + 1
      invariant err == Bresenham.ErrAt(s, x)
      invariant x <= s.a2 ==> y == s.At(x)
      invariant LinePainted(buf[..], old(buf[..]), s, x, color)
    {
      Bresenham.SegmentClose(s, x);
      Bresenham.NextPixel(s, x);
      PlotNext(buf, s, x, y, color, old(buf[..]));
      err := err + dy;
      if err > 0 {
        y := y + yStep;
        err := err - dx;
      }
      x := x + 1;
    }
  }

  lemma NothingPainted(was: seq<u16>, s: Bresenham.Segment, color: u16)
    requires |was| == SIZE
    ensures LinePainted(was, was, s, s.a1, color)
  {
  }

  /** Line::draw. */
  method DrawLine(buf: array<u16>, lx1: i16, ly1: i16, lx2: i16, ly2: i16, color: u16)
    requires buf.Length == SIZE
    modifies buf
    ensures forall i :: 0 <= i < SIZE ==>
              buf[i] == if Shown(i) && Bresenham.Covers(lx1, ly1, lx2, ly2, Column(i), Row(i)) then color else old(buf[i])
  {
    var x1: int, y1: int, x2: int, y2: int := lx1, ly1, lx2, ly2;
    var steep := Abs(y2 - y1) > Abs(x2 - x1);
    if steep {
      x1, y1 := y1, x1;
      x2, y2 := y2, x2;
    }
    if x1 > x2 {
      x1, x2 := x2, x1;
      y1, y2 := y2, y1;
    }
    var s := Bresenham.Segment(steep, x1, y1, x2, y2);
    assert s == Bresenham.Normalise(lx1, ly1, lx2, ly2);
    hide Bresenham.Segment.At, Bresenham.Normalise, Shown;
    ghost var was := buf[..];
    DrawSegment(buf, s, color);
    assert forall i :: 0 <= i < SIZE ==> buf[i] == buf[..][i] && was[i] == old(buf[i]);
  }

  // ----------------------------------------------------------------------- boxes

  /** A coordinate that has outgrown 16 bits wraps to one that is off the screen. */
  lemma WrapsOffScreen(c: int, v: int)
    requires -0x8000 <= c < 0x1_0000 && 0 <= v < STRIDE
    ensures v == ToI16(c) <==> v == c
  {
  }

  /** The inner loop of Rectangle::draw: one column. */
  method DrawColumn(buf: array<u16>, x: int, top: i16, height: i16, color: u16)
    requires buf.Length == SIZE && -0x8000 <= x < 0x1_0000
    modifies buf
    ensures forall i :: 0 <= i < SIZE ==>
              buf[i] == if Shown(i) && Column(i) == x && top <= Row(i) < top + height then color else old(buf[i])
  {
    var j: int := top;
    while j < top + height
      invariant top <= j <= Max(top, top + height)
      invariant forall i :: 0 <= i < SIZE ==>
                  buf[i] == if Shown(i) && Column(i) == x && top <= Row(i) < j then color else old(buf[i])
    {
      hide Column, Row;
      PutPixel(buf, ToI16(x), ToI16(j), color);
      forall i | 0 <= i < SIZE && Shown(i)
        ensures Column(i) == ToI16(x) && Row(i) == ToI16(j) <==> Column(i) == x && Row(i) == j
      {
        WrapsOffScreen(x, Column(i));
        WrapsOffScreen(j, Row(i));
      }
      j := j + 1;
    }
  }

  /** Rectangle::draw. */
  method DrawRectangle(buf: array<u16>, left: i16, top: i16, width: i16, height: i16, color: u16)
    requires buf.Length == SIZE
    modifies buf
    ensures forall i :: 0 <= i < SIZE ==>
              buf[i] == if Shown(i) && InBox(left, top, width, height, Column(i), Row(i)) then color else old(buf[i])
    ensures Filled(buf[..], old(buf[..]), color, (x, y) => left <= x < left + width && top <= y < top + height)
  {
    var x: int := left;
    while x < left + width
      invariant left <= x <= Max(left, left + width)
      invariant forall i :: 0 <= i < SIZE ==>
                  buf[i] == if Shown(i) && InBox(left, top, x - left, height, Column(i), Row(i)) then color else old(buf[i])
    {
      hide Column, Row;
      DrawColumn(buf, x, top, height, color);
      x := x + 1;
    }
  }

  /** The inner loop of Image::draw: one row. */
  method DrawImageRow(buf: array<u16>, pixels: seq<u16>, left: i16, y: int, j: int, width: i16, height: i16)
    requires buf.Length == SIZE && -0x8000 <= y < 0x1_0000
    requires 0 <= j < height && (width > 0 ==> |pixels| >= width * height)
    modifies buf
    ensures forall i :: 0 <= i < SIZE ==>
              buf[i] == if Shown(i) && Row(i) == y then RowBlend(old(buf[i]), pixels, left, j, width, height, Column(i), width) else old(buf[i])
  {
    var i: int := 0;
    while i < width
      invariant 0 <= i <= Max(width, 0)
      invariant forall k :: 0 <= k < SIZE ==>
                  buf[k] == if Shown(k) && Row(k) == y then RowBlend(old(buf[k]), pixels, left, j, width, height, Column(k), i) else old(buf[k])
    {
      hide Column, Row;
      InImage(i, j, width, height);
      var color := pixels[j * width + i];
      if color != TRANSPARENT {
        PutPixel(buf, ToI16(left + i), ToI16(y), color);
        forall k | 0 <= k < SIZE && Shown(k)
          ensures Column(k) == ToI16(left + i) && Row(k) == ToI16(y) <==> Column(k) == left + i && Row(k) == y
        {
          WrapsOffScreen(left + i, Column(k));
          WrapsOffScreen(y, Row(k));
        }
      }
      i := i + 1;
    }
  }

  /** The colour at column x of image row j once its first n pixels are drawn. */
  ghost function RowBlend(was: u16, pixels: seq<u16>, left: int, j: int, width: int, height: int, x: int, n: int): u16
    requires 0 <= j < height && (width > 0 ==> |pixels| >= width * height) && n <= Max(width, 0)
  {
    if left <= x < left + n then
      InImage(x - left, j, width, height);
      if pixels[j * width + (x - left)] == TRANSPARENT then was else pixels[j * width + (x - left)]
    else was
  }

  /** Image::draw. */
  method DrawImage(buf: array<u16>, o: DisplayObject)
    requires buf.Length == SIZE && o.shape.Image? && o.shape.Valid()
    modifies buf
    ensures forall i :: 0 <= i < SIZE ==>
              buf[i] == if Shown(i) then Blend(old(buf[i]), PaintAt(o, Column(i), Row(i))) else old(buf[i])
    ensures Draws(o, buf[..], old(buf[..]))
  {
    PaintedIsDrawn(buf[..], o);
    hide Draws;
    var Image(pixels, left, top, width, height) := o.shape;
    if o.color == ERASE_COLOR {
      DrawRectangle(buf, left, top, width, height, o.color);
      assert buf[..] == Painted(old(buf[..]), o);
      return;
    }
    var j: int := 0;
    while j < height
      invariant 0 <= j <= Max(height, 0)
      invariant forall i :: 0 <= i < SIZE ==>
                  buf[i] == if Shown(i) && Row(i) < top + j then Blend(old(buf[i]), PaintAt(o, Column(i), Row(i))) else old(buf[i])
    {
      hide Column, Row;
      if width > 0 {
        assert |pixels| >= width * height;
      }
      DrawImageRow(buf, pixels, left, top + j, j, width, height);
      j := j + 1;
    }
    assert buf[..] == Painted(old(buf[..]), o);
  }

  // ------------------------------------------------------------------- triangles

  /** The inner loop of both triangle halves: one clipped row. */
  method DrawSpan(buf: array<u16>, left: int, right: int, y: int, color: u16)
    requires buf.Length == SIZE && 0 <= y <= HEIGHT
    modifies buf
    ensures forall i :: 0 <= i < SIZE ==>
              buf[i] == if Shown(i) && Row(i) == y && left <= Column(i) <= right then color else old(buf[i])
  {
    var xMin := Max(left, 0);
    var xMax := Min(right, WIDTH);
    var x := xMin;
    while x <= xMax
      invariant xMin <= x <= Max(xMin, xMax + 1)
      invariant forall i :: 0 <= i < SIZE ==>
                  buf[i] == if Shown(i) && Row(i) == y && left <= Column(i) <= right && Column(i) < x then color else old(buf[i])
    {
      hide Column, Row;
      PutPixel(buf, ToI16(x), ToI16(y), color);
      x := x + 1;
    }
  }

  /** Triangle::draw_flat_bottom. */
  method DrawFlatBottom(buf: array<u16>, color: u16, a: Triangles.Vertex, b: Triangles.Vertex, c: Triangles.Vertex)
    requires buf.Length == SIZE && a.y <= b.y == c.y
    modifies buf
    ensures forall i :: 0 <= i < SIZE ==>
              buf[i] == if Shown(i) && Triangles.FlatBottom(a, b, c, Column(i), Row(i)) then color else old(buf[i])
    ensures a.y == c.y ==> buf[..] == old(buf[..])
  {
    hide Triangles.Edge;
    var l, r := b, c;
    if b.x > c.x {
      l, r := c, b;
    }
    var numLeft, denLeft := l.x - a.x, l.y - a.y;
    var numRight, denRight := r.x - a.x, r.y - a.y;
    if denLeft == 0 || denRight == 0 {
      return;
    }
    var top: int, bottom: int := a.y, r.y;
    var yMin := Max(top, 0);
    var yMax := Min(bottom, HEIGHT);
    var y := yMin;
    while y <= yMax
      invariant yMin <= y <= Max(yMin, yMax + 1)
      invariant forall i :: 0 <= i < SIZE ==>
                  buf[i] == if Shown(i) && Triangles.FlatBottom(a, b, c, Column(i), Row(i)) && Row(i) < y then color else old(buf[i])
    {
      hide Column, Row;
      var delY := y - top;
      var left := Triangles.Edge(a.x, numLeft, denLeft, delY);
      var right := Triangles.Edge(a.x, numRight, denRight, delY);
      DrawSpan(buf, left, right, y, color);
      y := y + 1;
    }
  }

  /** Triangle::draw_flat_top. */
  method DrawFlatTop(buf: array<u16>, color: u16, a: Triangles.Vertex, b: Triangles.Vertex, c: Triangles.Vertex)
    requires buf.Length == SIZE && a.y == b.y < c.y
    modifies buf
    ensures forall i :: 0 <= i < SIZE ==>
              buf[i] == if Shown(i) && Triangles.FlatTop(a, b, c, Column(i), Row(i)) then color else old(buf[i])
  {
    hide Triangles.Edge;
    var l, r := a, b;
    if a.x > b.x {
      l, r := b, a;
    }
    var numLeft, denLeft := c.x - l.x, c.y - l.y;
    var numRight, denRight := c.x - r.x, c.y - r.y;
    var top: int, bottom: int := l.y, c.y;
    var yMin := Max(top, 0);
    var yMax := Min(bottom, HEIGHT);
    var y := yMin;
    while y <= yMax
      invariant yMin <= y <= Max(yMin, yMax + 1)
      invariant forall i :: 0 <= i < SIZE ==>
                  buf[i] == if Shown(i) && Triangles.FlatTop(a, b, c, Column(i), Row(i)) && Row(i) < y then color else old(buf[i])
    {
      hide Column, Row;
      var delY := y - top;
      var left := Triangles.Edge(l.x, numLeft, denLeft, delY);
      var right := Triangles.Edge(r.x, numRight, denRight, delY);
      DrawSpan(buf, left, right, y, color);
      y := y + 1;
    }
  }

  /** Triangle::draw. */
  method DrawTriangle(buf: array<u16>, a: Triangles.Vertex, b: Triangles.Vertex, c: Triangles.Vertex, color: u16)
    requires buf.Length == SIZE && a.y <= b.y <= c.y
    modifies buf
    ensures forall i :: 0 <= i < SIZE ==>
              buf[i] == if Shown(i) && Triangles.Covers(a, b, c, Column(i), Row(i)) then color else old(buf[i])
    ensures a.y == c.y ==> buf[..] == old(buf[..])
  {
    hide Triangles.FlatBottom, Triangles.FlatTop, Triangles.Edge;
    if b.y == c.y {
      DrawFlatBottom(buf, color, a, b, c);
    } else if a.y == b.y {
      DrawFlatTop(buf, color, a, b, c);
    } else {
      var x4 := Triangles.Edge(a.x, c.x - a.x, c.y - a.y, b.y - a.y);
      var d := Triangles.Vertex(ToI16(x4), b.y);
      DrawFlatBottom(buf, color, a, b, d);
      DrawFlatTop(buf, color, b, d, c);
    }
  }

  /** Drawing an object, whatever its kind. */
  method Draw(buf: array<u16>, o: DisplayObject)
    requires buf.Length == SIZE && o.shape.Valid()
    modifies buf
    ensures buf[..] == Painted(old(buf[..]), o) && Draws(o, buf[..], old(buf[..]))
  {
    PaintedIsDrawn(buf[..], o);
    hide Draws;
    hide Column, Row, Triangles.Covers, Bresenham.Covers;
    match o.shape
    case Pixel(px, py) => PutPixel(buf, px, py, o.color);
    case Line(x1, y1, x2, y2) => DrawLine(buf, x1, y1, x2, y2, o.color);
    case Rectangle(left, top, width, height) => DrawRectangle(buf, left, top, width, height, o.color);
    case Triangle(a, b, c) => DrawTriangle(buf, a, b, c, o.color);
    case Image(_, _, _, _, _) => DrawImage(buf, o);
  }
}
