/** Drawing through the video DMA controller: the specialised loops for boxes, lines
    and rectangles write what the one-pixel routine would, for every data width and
    both addressing modes.  Addresses and offsets are 32-bit and wrap. */
module VideoDma {
  import opened Machine
  import Bresenham

  type Byte = x: int | 0 <= x < 256

  /** Memory, by byte address. */
  type Memory = map<u32, Byte>

  function Pow2(k: nat): nat {
    if k == 0 then 1 else 2 * Pow2(k - 1)
  }

  /** C's x << k in 32 bits. */
  function Shl(x: int, k: nat): u32 {
    ToU32(x * Pow2(k))
  }

  /** C's x & mask for a mask of low ones. */
  function And(x: u32, mask: u32): u32 {
    x % (mask + 1)
  }

  /** IOWR_8DIRECT, IOWR_16DIRECT and IOWR_32DIRECT: store the low `width` bytes of a
      symbol, lowest first. */
  function Store(mem: Memory, addr: u32, width: nat, symbol: u32): Memory
    decreases width
  {
    if width == 0 then mem
    else Store(mem[addr := symbol % 256], ToU32(addr + 1), width - 1, symbol / 256)
  }

  datatype Device = Device(
    bufferStart: u32, backBufferStart: u32, xyMode: bool, dataWidth: nat,
    xResolution: u32, yResolution: u32,
    xCoordOffset: nat, xCoordMask: u32, yCoordOffset: nat, yCoordMask: u32)
  {
    /** What the INIT macro sets up: the column offset matches the data width, rows
        start above the column bits, and the resolutions fit the masks. */
    ghost predicate Valid() {
      && xCoordOffset <= 2 && dataWidth == Pow2(xCoordOffset)
      && xCoordOffset <= yCoordOffset < 32
      && xCoordMask + 1 == Pow2(yCoordOffset - xCoordOffset)
      && xResolution <= xCoordMask + 1 && yResolution <= yCoordMask + 1
      && xResolution < 0x1_0000 && yResolution < 0x1_0000
    }

    predicate OnScreen(x: int, y: int) {
      0 <= x < xResolution && 0 <= y < yResolution
    }

    /** The offset that alt_up_video_dma_draw computes. */
    function Offset(x: u32, y: u32): u32 {
      if xyMode then
        ToU32(Shl(And(x, xCoordMask), xCoordOffset) + Shl(And(y, yCoordMask), yCoordOffset))
      else
        ToU32(Shl(And(x, xCoordMask), xCoordOffset) + Shl(ToU32(And(y, yCoordMask) * xResolution), xCoordOffset))
    }

    /** alt_up_video_dma_draw, as a function of memory. */
    function Put(mem: Memory, symbol: u32, start: u32, x: u32, y: u32): Memory {
      if x >= xResolution || y >= yResolution then mem
      else Store(mem, ToU32(start + Offset(x, y)), dataWidth, symbol)
    }

    /** The distance in bytes from one row to the next. */
    function RowBytes(): nat {
      if xyMode then Pow2(yCoordOffset) else xResolution * Pow2(xCoordOffset)
    }
  }

  // ------------------------------------------------------------------- addresses

  lemma Pow2Small()
    ensures Pow2(0) == 1 && Pow2(1) == 2 && Pow2(2) == 4
  {
  }

  lemma {:induction false} Pow2Adds(j: nat, k: nat)
    ensures Pow2(j + k) == Pow2(j) * Pow2(k)
  {
    if j > 0 {
      Pow2Adds(j - 1, k);
    }
  }

  lemma {:induction false} Pow2Grows(j: nat, k: nat)
    requires j <= k
    ensures 1 <= Pow2(j) <= Pow2(k)
    decreases k
  {
    if j < k {
      Pow2Grows(j, k - 1);
    } else if k > 0 {
      Pow2Grows(k - 1, k - 1);
    }
  }

  lemma AddWraps(a: int, b: int)
    ensures ToU32(ToU32(a) + b) == ToU32(a + b) == ToU32(a + ToU32(b))
  {
  }

  lemma ProductFits(m: int, n: int)
    requires 0 <= m < 0x1_0000 && 0 <= n < 0x1_0000
    ensures 0 <= m * n < TWO_32
  {
    ScaleUp(m, 0x1_0000, n);
  }

  lemma AndKeeps(x: u32, mask: u32)
    requires x <= mask
    ensures And(x, mask) == x
  {
    QuotientIs(x, mask + 1, 0);
  }

  /** One formula for both addressing modes: rows of RowBytes bytes, and columns of
      dataWidth bytes. */
  lemma PixelAddress(dev: Device, x: u32, y: u32)
    requires dev.Valid() && dev.OnScreen(x, y)
    ensures dev.Offset(x, y) == ToU32(y * dev.RowBytes() + x * dev.dataWidth)
  {
    AndKeeps(x, dev.xCoordMask);
    AndKeeps(y, dev.yCoordMask);
    var scale, width := Pow2(dev.xCoordOffset), dev.xResolution;
    hide And, ToU32, Pow2;
    if dev.xyMode {
      AddBoth(x * scale, y * Pow2(dev.yCoordOffset));
    } else {
      ProductFits(y, width);
      assert ToU32(y * width) == y * width by { Fits(y * width); }
      assert (y * width) * scale == y * (width * scale);
      AddBoth(x * scale, y * (width * scale));
    }
  }

  lemma Fits(n: int)
    requires 0 <= n < TWO_32
    ensures ToU32(n) == n
  {
  }

  lemma AddBoth(a: int, b: int)
    ensures ToU32(ToU32(a) + ToU32(b)) == ToU32(b + a)
  {
  }

  lemma Pow2Top()
    ensures Pow2(31) == 0x8000_0000
  {
    assert Pow2(7) == 128 && Pow2(8) == 256;
    Pow2Adds(8, 8);
    Pow2Adds(8, 16);
    Pow2Adds(7, 24);
  }

  lemma RowBytesFit(dev: Device)
    requires dev.Valid()
    ensures 0 < dev.xResolution ==> 0 < dev.RowBytes()
    ensures 0 <= dev.RowBytes() < TWO_32 && ToU32(dev.RowBytes()) == dev.RowBytes()
    ensures dev.dataWidth == 1 || dev.dataWidth == 2 || dev.dataWidth == 4
    ensures dev.xyMode ==> Shl(1, dev.yCoordOffset) == dev.RowBytes()
    ensures !dev.xyMode ==> Shl(dev.xResolution, dev.xCoordOffset) == dev.RowBytes()
    ensures !dev.xyMode && dev.xCoordOffset == 0 ==> dev.xResolution == dev.RowBytes()
  {
    Pow2Small();
    assert dev.xCoordOffset == 0 || dev.xCoordOffset == 1 || dev.xCoordOffset == 2;
    if dev.xyMode {
      Pow2Grows(dev.yCoordOffset, 31);
      Pow2Top();
    } else {
      ScaleUp(dev.dataWidth, 4, dev.xResolution);
    }
  }

  /** A row is long enough for its pixels. */
  lemma RowFits(dev: Device)
    requires dev.Valid()
    ensures 0 <= dev.xResolution * dev.dataWidth <= dev.RowBytes()
  {
    if dev.xyMode {
      Pow2Adds(dev.yCoordOffset - dev.xCoordOffset, dev.xCoordOffset);
      ScaleUp(dev.xResolution, dev.xCoordMask + 1, dev.dataWidth);
    }
  }

  // --------------------------------------------------------------- pixel by pixel

  datatype Pixel = Pixel(x: u32, y: u32)

  /** Memory after calling alt_up_video_dma_draw on each of a list of pixels. */
  function PutAll(dev: Device, mem: Memory, symbol: u32, start: u32, pixels: seq<Pixel>): Memory {
    if pixels == [] then mem
    else
      var last := pixels[|pixels| - 1];
      dev.Put(PutAll(dev, mem, symbol, start, pixels[..|pixels| - 1]), symbol, start, last.x, last.y)
  }

  /** Where a pixel's bytes start, on the screen or not. */
  function PixelAt(dev: Device, start: u32, p: Pixel): u32 {
    ToU32(start + p.y * dev.RowBytes() + p.x * dev.dataWidth)
  }

  /** Memory after storing a symbol at each of a list of pixels, without any check. */
  function StoreAll(dev: Device, mem: Memory, symbol: u32, start: u32, pixels: seq<Pixel>): Memory {
    if pixels == [] then mem
    else
      var last := |pixels| - 1;
      Store(StoreAll(dev, mem, symbol, start, pixels[..last]), PixelAt(dev, start, pixels[last]), dev.dataWidth, symbol)
  }

  lemma StoreOne(dev: Device, mem: Memory, symbol: u32, start: u32, pixels: seq<Pixel>, p: Pixel)
    ensures StoreAll(dev, mem, symbol, start, pixels + [p])
         == Store(StoreAll(dev, mem, symbol, start, pixels), PixelAt(dev, start, p), dev.dataWidth, symbol)
  {
    assert (pixels + [p])[..|pixels|] == pixels;
  }

  lemma {:induction false} StoreMore(dev: Device, mem: Memory, symbol: u32, start: u32, these: seq<Pixel>, those: seq<Pixel>)
    ensures StoreAll(dev, mem, symbol, start, these + those)
         == StoreAll(dev, StoreAll(dev, mem, symbol, start, these), symbol, start, those)
    decreases |those|
  {
    hide PixelAt;
    if those == [] {
      assert these + those == these;
    } else {
      var n := |those| - 1;
      StoreMore(dev, mem, symbol, start, these, those[..n]);
      assert these + those == (these + those[..n]) + [those[n]];
      StoreOne(dev, mem, symbol, start, these + those[..n], those[n]);
    }
  }

  /** On the screen the stores are what alt_up_video_dma_draw would do. */
  lemma {:induction false} StoresArePuts(dev: Device, mem: Memory, symbol: u32, start: u32, pixels: seq<Pixel>)
    requires dev.Valid() && forall p :: p in pixels ==> dev.OnScreen(p.x, p.y)
    ensures StoreAll(dev, mem, symbol, start, pixels) == PutAll(dev, mem, symbol, start, pixels)
    decreases |pixels|
  {
    hide Device.Put, Device.Valid, Store;
    if pixels != [] {
      var n := |pixels| - 1;
      var last := pixels[n];
      assert last in pixels && forall p :: p in pixels[..n] ==> p in pixels;
      StoresArePuts(dev, mem, symbol, start, pixels[..n]);
      StoreIsPut(dev, PutAll(dev, mem, symbol, start, pixels[..n]), symbol, start, PixelAt(dev, start, last), last.x, last.y);
    }
  }

  /** Row y, columns l up to but excluding r. */
  function RowOf(l: u32, r: u32, y: u32): seq<Pixel>
    requires l <= r
    decreases r - l
  {
    if l == r then [] else RowOf(l, r - 1, y) + [Pixel(r - 1, y)]
  }

  /** Column x, rows t up to but excluding b. */
  function ColumnOf(x: u32, t: u32, b: u32): seq<Pixel>
    requires t <= b
    decreases b - t
  {
    if t == b then [] else ColumnOf(x, t, b - 1) + [Pixel(x, b - 1)]
  }

  function BoxOf(l: u32, r: u32, t: u32, b: u32): seq<Pixel>
    requires l <= r && t <= b
    decreases b - t
  {
    if t == b then [] else BoxOf(l, r, t, b - 1) + RowOf(l, r, b - 1)
  }

  /** The four sides that alt_up_video_dma_draw_rectangle walks, corners twice; a side
      whose ends come in the wrong order is empty. */
  function OutlineOf(x0: u32, y0: u32, x1: u32, y1: u32): seq<Pixel>
    requires x1 < 0xFFFF_FFFF && y1 < 0xFFFF_FFFF
  {
    var top := if x0 <= x1 then RowOf(x0, x1 + 1, y0) else [];
    var bottom := if x0 <= x1 then RowOf(x0, x1 + 1, y1) else [];
    var left := if y0 <= y1 then ColumnOf(x0, y0, y1 + 1) else [];
    var right := if y0 <= y1 then ColumnOf(x1, y0, y1 + 1) else [];
    top + bottom + left + right
  }

  lemma {:induction false} InRow(l: u32, r: u32, y: u32, p: Pixel)
    requires l <= r
    ensures p in RowOf(l, r, y) <==> l <= p.x < r && p.y == y
    decreases r - l
  {
    if l < r {
      InRow(l, r - 1, y, p);
    }
  }

  lemma {:induction false} InColumn(x: u32, t: u32, b: u32, p: Pixel)
    requires t <= b
    ensures p in ColumnOf(x, t, b) <==> p.x == x && t <= p.y < b
    decreases b - t
  {
    if t < b {
      InColumn(x, t, b - 1, p);
    }
  }

  lemma {:induction false} InBox(l: u32, r: u32, t: u32, b: u32, p: Pixel)
    requires l <= r && t <= b
    ensures p in BoxOf(l, r, t, b) <==> l <= p.x < r && t <= p.y < b
    decreases b - t
  {
    hide RowOf;
    if t < b {
      InBox(l, r, t, b - 1, p);
      InRow(l, r, b - 1, p);
    }
  }

  lemma InOutline(x0: u32, y0: u32, x1: u32, y1: u32, p: Pixel)
    requires x1 < 0xFFFF_FFFF && y1 < 0xFFFF_FFFF
    ensures p in OutlineOf(x0, y0, x1, y1) <==>
              || (x0 <= p.x <= x1 && (p.y == y0 || p.y == y1))
              || (y0 <= p.y <= y1 && (p.x == x0 || p.x == x1))
  {
    hide RowOf, ColumnOf;
    if x0 <= x1 {
      InRow(x0, x1 + 1, y0, p);
      InRow(x0, x1 + 1, y1, p);
    }
    if y0 <= y1 {
      InColumn(x0, y0, y1 + 1, p);
      InColumn(x1, y0, y1 + 1, p);
    }
  }

  lemma BoxGrows(l: u32, r: u32, t: u32, y: u32)
    requires l <= r && t <= y < 0xFFFF_FFFF
    ensures BoxOf(l, r, t, t) == []
    ensures BoxOf(l, r, t, y + 1) == BoxOf(l, r, t, y) + RowOf(l, r, y)
  {
  }

  // --------------------------------------------------------------- the inner loops

  lemma OffsetAdds(start: u32, row: int, col: int, offset: u32)
    requires offset == ToU32(row + col)
    ensures ToU32(start + row + col) == ToU32(start + offset)
  {
    AddWraps(start, row + col);
  }

  /** One store of an inner loop is one call of alt_up_video_dma_draw. */
  lemma StoreIsPut(dev: Device, mem: Memory, symbol: u32, start: u32, at: u32, x: u32, y: u32)
    requires dev.Valid() && dev.OnScreen(x, y)
    requires at == ToU32(start + y * dev.RowBytes() + x * dev.dataWidth)
    ensures Store(mem, at, dev.dataWidth, symbol) == dev.Put(mem, symbol, start, x, y)
  {
    PixelAddress(dev, x, y);
    OffsetAdds(start, y * dev.RowBytes(), x * dev.dataWidth, dev.Offset(x, y));
    hide ToU32, Device.Offset, Device.RowBytes, Device.Valid, Store, Pow2;
  }

  /** An address that steps from row to row. */
  lemma NextRow(start: u32, y: u32, stride: nat)
    ensures ToU32(ToU32(start + y * stride) + ToU32(stride)) == ToU32(start + (y + 1) * stride)
  {
    assert (y + 1) * stride == y * stride + stride;
    AddWraps(start + y * stride, stride);
    AddWraps(ToU32(start + y * stride), stride);
  }

  /** Where a row starts, in either addressing mode. */
  lemma RowAddress(dev: Device, start: u32, y: u32)
    requires dev.Valid()
    ensures dev.xyMode ==> ToU32(start + Shl(y, dev.yCoordOffset)) == ToU32(start + y * dev.RowBytes())
    ensures !dev.xyMode ==>
              && ToU32(start + Shl(ToU32(y * dev.xResolution), dev.xCoordOffset)) == ToU32(start + y * dev.RowBytes())
              && ToU32(start + ToU32(y * dev.RowBytes())) == ToU32(start + y * dev.RowBytes())
  {
    hide ToU32, Pow2;
    var row := y * dev.RowBytes();
    AddWraps(start, row);
    if !dev.xyMode {
      var scale := Pow2(dev.xCoordOffset);
      ScaleWraps(y * dev.xResolution, scale);
      assert (y * dev.xResolution) * scale == row;
    }
  }

  lemma {:induction false} ScaleWraps(a: int, n: nat)
    ensures ToU32(ToU32(a) * n) == ToU32(a * n)
  {
    if n > 0 {
      ScaleWraps(a, n - 1);
      assert ToU32(a) * n == ToU32(a) * (n - 1) + ToU32(a);
      assert a * n == a * (n - 1) + a;
      AddBothWrap(ToU32(a) * (n - 1), ToU32(a), a * (n - 1), a);
    }
  }

  lemma AddBothWrap(a: int, b: int, c: int, d: int)
    requires ToU32(a) == ToU32(c) && ToU32(b) == ToU32(d)
    ensures ToU32(a + b) == ToU32(c + d)
  {
  }

  lemma NoRows(stride: int)
    ensures ToU32(0 * stride) == 0
  {
  }

  lemma ColumnStart(start: u32, col: int, row: int)
    ensures ToU32(ToU32(start + ToU32(col)) + ToU32(row)) == ToU32(start + col + row)
  {
  }

  /** The column loop's offset, and where it stores. */
  lemma ColumnAddress(start: u32, col: int, y0: u32, y: u32, stride: nat)
    ensures ToU32(ToU32(start + col + y0 * stride) + ToU32((y - y0) * stride)) == ToU32(start + y * stride + col)
    ensures ToU32(ToU32((y - y0) * stride) + stride) == ToU32((y + 1 - y0) * stride)
  {
    assert y0 * stride + (y - y0) * stride == y * stride;
    AddThree(start + col, y0 * stride, (y - y0) * stride);
    assert (y + 1 - y0) * stride == (y - y0) * stride + stride;
    AddWraps((y - y0) * stride, stride);
  }

  lemma AddThree(a: int, b: int, c: int)
    ensures ToU32(ToU32(a + b) + ToU32(c)) == ToU32(a + b + c)
  {
  }

  // ------------------------------------------------------------------------ lines

  /** A segment between two pixels of the screen. */
  ghost predicate OnSegment(dev: Device, s: Bresenham.Segment) {
    && s.a1 <= s.a2 && s.Dy() <= s.Dx()
    && (if s.steep then dev.OnScreen(s.b1, s.a1) && dev.OnScreen(s.b2, s.a2)
        else dev.OnScreen(s.a1, s.b1) && dev.OnScreen(s.a2, s.b2))
  }

  ghost predicate Natural(s: Bresenham.Segment) {
    s.Dy() <= s.Dx() && 0 <= s.a1 <= s.a2 < TWO_32 && 0 <= s.b1 < TWO_32 && 0 <= s.b2 < TWO_32
  }

  function LinePixel(s: Bresenham.Segment, a: int): Pixel
    requires Natural(s) && s.a1 <= a <= s.a2
  {
    Bresenham.SegmentClose(s, a);
    if s.steep then Pixel(s.At(a), a) else Pixel(a, s.At(a))
  }

  /** The pixels of a segment, up to but excluding major coordinate `end`. */
  function LineOf(s: Bresenham.Segment, end: int): seq<Pixel>
    requires Natural(s) && s.a1 <= end <= s.a2 + 1
    decreases end - s.a1
  {
    if end == s.a1 then [] else LineOf(s, end - 1) + [LinePixel(s, end - 1)]
  }

  /** The pixels of the line between two pixels of the screen. */
  function Line(dev: Device, x0: u32, y0: u32, x1: u32, y1: u32): seq<Pixel>
    requires dev.OnScreen(x0, y0) && dev.OnScreen(x1, y1)
  {
    var s := Bresenham.Normalise(x0, y0, x1, y1);
    LineOf(s, s.a2 + 1)
  }

  lemma NoLine(s: Bresenham.Segment)
    requires Natural(s)
    ensures LineOf(s, s.a1) == []
  {
  }

  lemma LineGrows(dev: Device, s: Bresenham.Segment, a: int)
    requires dev.Valid() && OnSegment(dev, s) && s.a1 <= a <= s.a2
    ensures Natural(s) && LineOf(s, a + 1) == LineOf(s, a) + [LinePixel(s, a)]
    ensures LinePixel(s, a) == if s.steep then Pixel(s.At(a), a) else Pixel(a, s.At(a))
    ensures dev.OnScreen(LinePixel(s, a).x, LinePixel(s, a).y)
  {
    Bresenham.SegmentClose(s, a);
  }

  lemma {:induction false} InLineOf(s: Bresenham.Segment, end: int, p: Pixel)
    requires Natural(s) && s.a1 <= end <= s.a2 + 1
    ensures var a, b := if s.steep then p.y else p.x, if s.steep then p.x else p.y;
            p in LineOf(s, end) <==> s.a1 <= a < end && b == s.At(a)
    decreases end - s.a1
  {
    hide Bresenham.Segment.At;
    if end > s.a1 {
      InLineOf(s, end - 1, p);
    }
  }

  /** The pixels are those that the game's own line drawing covers. */
  lemma InLine(dev: Device, x0: u32, y0: u32, x1: u32, y1: u32, p: Pixel)
    requires dev.OnScreen(x0, y0) && dev.OnScreen(x1, y1)
    ensures p in Line(dev, x0, y0, x1, y1) <==> Bresenham.Covers(x0, y0, x1, y1, p.x, p.y)
  {
    var s := Bresenham.Normalise(x0, y0, x1, y1);
    InLineOf(s, s.a2 + 1, p);
  }

  /** The loop has come to major coordinate x, with its accumulator and minor coordinate
      right for it. */
  ghost predicate Arrived(s: Bresenham.Segment, x: int, y: int, error: int) {
    && s.Dy() <= s.Dx() && s.a1 <= x <= s.a2 + 1
    && error == Bresenham.ErrAt(s, x)
    && (x <= s.a2 ==> y == s.At(x))
  }

  lemma Departs(s: Bresenham.Segment)
    requires Natural(s)
    ensures Arrived(s, s.a1, s.b1, -(s.Dx() / 2))
  {
    Bresenham.FirstPixel(s);
  }

  lemma Advances(s: Bresenham.Segment, x: int, y: int, error: int)
    requires Arrived(s, x, y, error) && x <= s.a2
    ensures y == s.At(x)
    ensures Arrived(s, x + 1, if error + s.Dy() > 0 then y + s.Dir() else y,
                    if error + s.Dy() > 0 then error + s.Dy() - s.Dx() else error + s.Dy())
  {
    hide Bresenham.ErrAt, Bresenham.Segment.At;
    Bresenham.NextPixel(s, x);
  }

  /** lineSize is the distance in pixels from one row to the next. */
  ghost predicate RowPixels(dev: Device, lineSize: u32) {
    lineSize * dev.dataWidth == dev.RowBytes()
  }

  lemma LineSize(dev: Device)
    requires dev.Valid()
    ensures dev.xyMode ==> RowPixels(dev, Shl(1, dev.yCoordOffset - dev.xCoordOffset))
    ensures !dev.xyMode ==> RowPixels(dev, dev.xResolution)
  {
    if dev.xyMode {
      var k := dev.yCoordOffset - dev.xCoordOffset;
      Pow2Adds(k, dev.xCoordOffset);
      Pow2Grows(k, 31);
      Pow2Top();
      Fits(Pow2(k));
    }
  }

  lemma LineAddress(dev: Device, start: u32, lineSize: u32, p: Pixel)
    requires dev.Valid() && RowPixels(dev, lineSize)
    ensures ToU32(start + Shl(lineSize * p.y + p.x, dev.xCoordOffset))
         == ToU32(start + p.y * dev.RowBytes() + p.x * dev.dataWidth)
  {
    var w := dev.dataWidth;
    hide ToU32, Device.RowBytes;
    assert (lineSize * p.y + p.x) * w == (lineSize * p.y) * w + p.x * w;
    assert (lineSize * p.y) * w == p.y * (lineSize * w);
    AddWraps(start, (lineSize * p.y + p.x) * w);
  }

  // ------------------------------------------------------------- what memory shows

  /** Byte k of a symbol as it is stored. */
  function ByteOf(symbol: u32, k: nat): Byte {
    if k == 0 then symbol % 256 else ByteOf(symbol / 256, k - 1)
  }

  predicate Same(m: Memory, n: Memory, a: u32) {
    (a in m <==> a in n) && (a in m ==> m[a] == n[a])
  }

  predicate Shows(m: Memory, a: u32, b: Byte) {
    a in m && m[a] == b
  }

  function Position(dev: Device, p: Pixel): int {
    p.y * dev.RowBytes() + p.x * dev.dataWidth
  }

  /** How far address a lies behind the first byte of pixel p; below dataWidth when it
      is one of the pixel's bytes. */
  function Into(dev: Device, start: u32, p: Pixel, a: u32): u32 {
    ToU32(a - start - Position(dev, p))
  }

  /** The frame does not wrap onto itself in a 32-bit address space. */
  ghost predicate FrameFits(dev: Device) {
    dev.yResolution * dev.RowBytes() <= TWO_32
  }

  lemma {:induction false} StoreShows(mem: Memory, addr: u32, width: nat, symbol: u32, a: u32)
    requires width <= 4
    ensures var m, k := Store(mem, addr, width, symbol), ToU32(a - addr);
            if k < width then Shows(m, a, ByteOf(symbol, k)) else Same(m, mem, a)
    decreases width
  {
    if width > 0 {
      StoreShows(mem[addr := symbol % 256], ToU32(addr + 1), width - 1, symbol / 256, a);
      NextByte(a, addr);
    }
  }

  lemma NextByte(a: u32, addr: u32)
    ensures a == addr <==> ToU32(a - addr) == 0
    ensures ToU32(a - ToU32(addr + 1)) == if a == addr then TWO_32 - 1 else ToU32(a - addr) - 1
  {
  }

  lemma PlaceInRow(x: int, xs: int, y: int, ys: int, w: nat, row: int)
    requires 0 <= x < xs && 0 <= y < ys && xs * w <= row
    ensures 0 <= y * row + x * w && y * row + x * w + w <= (y + 1) * row <= ys * row
  {
    ScaleUp(x + 1, xs, w);
    assert (x + 1) * w == x * w + w;
    ScaleUp(x, x, w);
    ScaleUp(y + 1, ys, row);
    assert (y + 1) * row == y * row + row;
    ScaleUp(y, y, row);
  }

  lemma PositionBounds(dev: Device, p: Pixel)
    requires dev.Valid() && FrameFits(dev) && dev.OnScreen(p.x, p.y)
    ensures 0 <= Position(dev, p) && Position(dev, p) + dev.dataWidth <= (p.y + 1) * dev.RowBytes() <= TWO_32
  {
    RowFits(dev);
    PlaceInRow(p.x, dev.xResolution, p.y, dev.yResolution, dev.dataWidth, dev.RowBytes());
  }

  /** Different pixels have different bytes. */
  lemma PositionsApart(dev: Device, p: Pixel, q: Pixel)
    requires dev.Valid() && FrameFits(dev) && dev.OnScreen(p.x, p.y) && dev.OnScreen(q.x, q.y)
    requires p.y < q.y || (p.y == q.y && p.x < q.x)
    ensures Position(dev, p) + dev.dataWidth <= Position(dev, q)
  {
    var w, row := dev.dataWidth, dev.RowBytes();
    PositionBounds(dev, p);
    RowFits(dev);
    hide Device.RowBytes, Pow2;
    if p.y < q.y {
      ScaleUp(p.y + 1, q.y, row);
      ScaleUp(0, q.x, w);
    } else {
      ScaleUp(p.x + 1, q.x, w);
      assert (p.x + 1) * w == p.x * w + w;
    }
  }

  lemma Residue(a: int, u: int, w: nat)
    requires 0 <= u && u + w <= TWO_32 && ToU32(a - u) < w
    ensures ToU32(a) == u + ToU32(a - u)
  {
  }

  lemma NotBoth(a: int, u: int, v: int, w: nat)
    requires 0 <= u && u + w <= TWO_32 && 0 <= v && v + w <= TWO_32 && (u + w <= v || v + w <= u)
    ensures ToU32(a - u) < w ==> ToU32(a - v) >= w
  {
    hide ToU32;
    if ToU32(a - u) < w && ToU32(a - v) < w {
      Residue(a, u, w);
      Residue(a, v, w);
    }
  }

  lemma Apart(dev: Device, start: u32, p: Pixel, q: Pixel, a: u32)
    requires dev.Valid() && FrameFits(dev) && dev.OnScreen(p.x, p.y) && dev.OnScreen(q.x, q.y)
    requires p != q && Into(dev, start, p, a) < dev.dataWidth
    ensures Into(dev, start, q, a) >= dev.dataWidth
  {
    PositionBounds(dev, p);
    PositionBounds(dev, q);
    if p.y < q.y || (p.y == q.y && p.x < q.x) {
      PositionsApart(dev, p, q);
    } else {
      PositionsApart(dev, q, p);
    }
    var w := dev.dataWidth;
    hide Position, ToU32, Device.Valid, FrameFits, Device.RowBytes, Pow2;
    NotBoth(a - start, Position(dev, p), Position(dev, q), w);
  }

  /** One call of alt_up_video_dma_draw, read back byte by byte. */
  lemma PutShows(dev: Device, mem: Memory, symbol: u32, start: u32, p: Pixel, a: u32)
    requires dev.Valid()
    ensures var m, k := dev.Put(mem, symbol, start, p.x, p.y), Into(dev, start, p, a);
            if dev.OnScreen(p.x, p.y) && k < dev.dataWidth then Shows(m, a, ByteOf(symbol, k)) else Same(m, mem, a)
  {
    if dev.OnScreen(p.x, p.y) {
      var at := ToU32(start + p.y * dev.RowBytes() + p.x * dev.dataWidth);
      StoreIsPut(dev, mem, symbol, start, at, p.x, p.y);
      RowBytesFit(dev);
      StoreShows(mem, at, dev.dataWidth, symbol, a);
      BackWraps(a, start + Position(dev, p));
    }
  }

  lemma BackWraps(a: int, b: int)
    ensures ToU32(a - ToU32(b)) == ToU32(a - b)
  {
  }

  /** The k-th address from `at` on, where addresses wrap. */
  function Beyond(at: int, k: int): u32 {
    ToU32(at + k)
  }

  /** The bytes of a symbol, lowest first, are at `at` and beyond; every other byte is as it
      was. */
  ghost predicate Stored(now: Memory, was: Memory, at: int, width: nat, symbol: u32) {
    && (forall k: nat :: k < width ==> Shows(now, Beyond(at, k), ByteOf(symbol, k)))
    && forall a: u32 :: (forall k: nat :: k < width ==> a != Beyond(at, k)) ==> Same(now, was, a)
  }

  lemma BeyondIs(at: int, k: nat, a: u32)
    requires k < TWO_32
    ensures ToU32(a - at) == k <==> a == Beyond(at, k)
  {
  }

  lemma PutStores(dev: Device, mem: Memory, symbol: u32, start: u32, x: u32, y: u32)
    requires dev.Valid() && dev.OnScreen(x, y)
    ensures Stored(dev.Put(mem, symbol, start, x, y), mem, start + Position(dev, Pixel(x, y)), dev.dataWidth, symbol)
  {
    var p, w, now := Pixel(x, y), dev.dataWidth, dev.Put(mem, symbol, start, x, y);
    var at := start + Position(dev, p);
    RowBytesFit(dev);
    forall k: nat | k < w
      ensures Shows(now, Beyond(at, k), ByteOf(symbol, k))
    {
      PutByte(dev, mem, symbol, start, p, at, Beyond(at, k), k);
    }
    forall a: u32 | forall k: nat :: k < w ==> a != Beyond(at, k)
      ensures Same(now, mem, a)
    {
      PutByte(dev, mem, symbol, start, p, at, a, ToU32(a - at));
    }
  }

  lemma PutByte(dev: Device, mem: Memory, symbol: u32, start: u32, p: Pixel, at: int, a: u32, k: nat)
    requires dev.Valid() && dev.OnScreen(p.x, p.y) && at == start + Position(dev, p) && k < TWO_32
    ensures var now := dev.Put(mem, symbol, start, p.x, p.y);
            a == Beyond(at, k) ==>
              if k < dev.dataWidth then Shows(now, a, ByteOf(symbol, k)) else Same(now, mem, a)
    ensures k == ToU32(a - at) ==> a == Beyond(at, k)
  {
    PutShows(dev, mem, symbol, start, p, a);
    BeyondIs(at, k, a);
    hide Device.Put, Device.Valid, Position, ByteOf, ToU32, Beyond;
  }

  /** A symbol's bytes, put together. */
  lemma BytesOf(symbol: u32)
    ensures symbol == ByteOf(symbol, 0) + 0x100 * ByteOf(symbol, 1) + 0x1_0000 * ByteOf(symbol, 2)
                      + 0x100_0000 * ByteOf(symbol, 3)
  {
  }

  /** How far into the buffer a pixel lies, in the two addressing modes. */
  lemma PositionIs(dev: Device, x: u32, y: u32)
    requires dev.Valid()
    ensures Position(dev, Pixel(x, y))
         == if dev.xyMode then y * Pow2(dev.yCoordOffset) + x * dev.dataWidth
            else (y * dev.xResolution + x) * dev.dataWidth
  {
    var w := dev.dataWidth;
    hide Pow2;
    assert (y * dev.xResolution + x) * w == (y * dev.xResolution) * w + x * w;
    assert (y * dev.xResolution) * w == y * (dev.xResolution * w);
  }

  /** Memory shows a region of the screen in a symbol: every byte of a pixel of the region
      is the symbol's, and every other byte, on the screen or off it, is as it was. */
  ghost predicate Drawn(dev: Device, now: Memory, was: Memory, symbol: u32, start: u32, region: (int, int) -> bool) {
    && (forall p: Pixel, a: u32 :: dev.OnScreen(p.x, p.y) && Into(dev, start, p, a) < dev.dataWidth ==>
          if region(p.x, p.y) then Shows(now, a, ByteOf(symbol, Into(dev, start, p, a))) else Same(now, was, a))
    && forall a: u32 :: OffScreen(dev, start, a) ==> Same(now, was, a)
  }

  /** The byte at an address belongs to no pixel of the screen. */
  ghost predicate OffScreen(dev: Device, start: u32, a: u32) {
    forall p: Pixel :: dev.OnScreen(p.x, p.y) ==> Into(dev, start, p, a) >= dev.dataWidth
  }

  lemma PutsDraw(dev: Device, mem: Memory, symbol: u32, start: u32, pixels: seq<Pixel>, region: (int, int) -> bool)
    requires dev.Valid() && FrameFits(dev)
    requires forall p: Pixel :: dev.OnScreen(p.x, p.y) ==> (p in pixels <==> region(p.x, p.y))
    ensures Drawn(dev, PutAll(dev, mem, symbol, start, pixels), mem, symbol, start, region)
  {
    hide PutAll, Into, ByteOf, Device.Valid, FrameFits;
    forall p: Pixel, a: u32 | dev.OnScreen(p.x, p.y) && Into(dev, start, p, a) < dev.dataWidth
      ensures var m := PutAll(dev, mem, symbol, start, pixels);
              if p in pixels then Shows(m, a, ByteOf(symbol, Into(dev, start, p, a))) else Same(m, mem, a)
    {
      PixelsShow(dev, mem, symbol, start, pixels, p, a);
    }
    forall a: u32 | OffScreen(dev, start, a)
      ensures Same(PutAll(dev, mem, symbol, start, pixels), mem, a)
    {
      NothingElse(dev, mem, symbol, start, pixels, a);
    }
  }

  /** Drawing a list of pixels paints exactly them: every byte of an on-screen pixel of
      the list holds the symbol's, and every byte of any other pixel of the screen is
      as it was. */
  lemma {:induction false} PixelsShow(dev: Device, mem: Memory, symbol: u32, start: u32, pixels: seq<Pixel>, p: Pixel, a: u32)
    requires dev.Valid() && FrameFits(dev) && dev.OnScreen(p.x, p.y) && Into(dev, start, p, a) < dev.dataWidth
    ensures var m := PutAll(dev, mem, symbol, start, pixels);
            if p in pixels then Shows(m, a, ByteOf(symbol, Into(dev, start, p, a))) else Same(m, mem, a)
    decreases |pixels|
  {
    hide Device.Put, Into, ByteOf, Device.Valid, FrameFits;
    if pixels != [] {
      var n := |pixels| - 1;
      var before, last := pixels[..n], pixels[n];
      assert p in pixels <==> p in before || p == last;
      PixelsShow(dev, mem, symbol, start, before, p, a);
      PutShows(dev, PutAll(dev, mem, symbol, start, before), symbol, start, last, a);
      if p != last && dev.OnScreen(last.x, last.y) {
        Apart(dev, start, p, last, a);
      }
    }
  }

  /** No byte off the screen is written. */
  lemma {:induction false} NothingElse(dev: Device, mem: Memory, symbol: u32, start: u32, pixels: seq<Pixel>, a: u32)
    requires dev.Valid()
    requires forall p :: p in pixels && dev.OnScreen(p.x, p.y) ==> Into(dev, start, p, a) >= dev.dataWidth
    ensures Same(PutAll(dev, mem, symbol, start, pixels), mem, a)
    decreases |pixels|
  {
    hide Device.Put, Into, ByteOf, Device.Valid;
    if pixels != [] {
      var n := |pixels| - 1;
      var before, last := pixels[..n], pixels[n];
      assert last in pixels && forall p :: p in before ==> p in pixels;
      NothingElse(dev, mem, symbol, start, before, a);
      PutShows(dev, PutAll(dev, mem, symbol, start, before), symbol, start, last, a);
    }
  }

  /** The sides of a rectangle. */
  predicate OnSides(x0: int, y0: int, x1: int, y1: int, x: int, y: int) {
    (x0 <= x <= x1 && (y == y0 || y == y1)) || (y0 <= y <= y1 && (x == x0 || x == x1))
  }

  lemma BoxDrawn(dev: Device, mem: Memory, symbol: u32, start: u32, x0: u32, y0: u32, x1: u32, y1: u32)
    requires dev.Valid() && dev.OnScreen(Min(x0, x1), Min(y0, y1))
    ensures var r, b := Min(Max(x0, x1), dev.xResolution - 1), Min(Max(y0, y1), dev.yResolution - 1);
            var m := PutAll(dev, mem, symbol, start, BoxOf(Min(x0, x1), r + 1, Min(y0, y1), b + 1));
            FrameFits(dev) ==> Drawn(dev, m, mem, symbol, start,
              (px, py) => Min(x0, x1) <= px <= Max(x0, x1) && Min(y0, y1) <= py <= Max(y0, y1))
  {
    var l, t := Min(x0, x1), Min(y0, y1);
    var r, b := Min(Max(x0, x1), dev.xResolution - 1), Min(Max(y0, y1), dev.yResolution - 1);
    hide PutAll, BoxOf, Drawn, Device.Valid, FrameFits;
    if FrameFits(dev) {
      forall p: Pixel {
        InBox(l, r + 1, t, b + 1, p);
      }
      PutsDraw(dev, mem, symbol, start, BoxOf(l, r + 1, t, b + 1),
               (px, py) => Min(x0, x1) <= px <= Max(x0, x1) && Min(y0, y1) <= py <= Max(y0, y1));
    }
  }

  lemma ScreenDrawn(dev: Device, mem: Memory, symbol: u32, start: u32)
    requires dev.Valid()
    ensures var m := PutAll(dev, mem, symbol, start, BoxOf(0, dev.xResolution, 0, dev.yResolution));
            FrameFits(dev) ==> Drawn(dev, m, mem, symbol, start, (px, py) => true)
  {
    hide PutAll, BoxOf, Drawn, Device.Valid, FrameFits;
    if FrameFits(dev) {
      forall p: Pixel {
        InBox(0, dev.xResolution, 0, dev.yResolution, p);
      }
      PutsDraw(dev, mem, symbol, start, BoxOf(0, dev.xResolution, 0, dev.yResolution), (px, py) => true);
    }
  }

  lemma RowDrawn(dev: Device, mem: Memory, symbol: u32, start: u32, x0: u32, x1: u32, y: u32)
    requires dev.Valid() && x1 < 0xFFFF_FFFF
    ensures var m := if x0 <= x1 then StoreAll(dev, mem, symbol, start, RowOf(x0, x1 + 1, y)) else mem;
            FrameFits(dev) && x1 < dev.xResolution && y < dev.yResolution ==>
              Drawn(dev, m, mem, symbol, start, (px, py) => x0 <= px <= x1 && py == y)
  {
    hide PutAll, StoreAll, RowOf, Device.Valid, FrameFits, Drawn;
    if FrameFits(dev) && x1 < dev.xResolution && y < dev.yResolution {
      var row := if x0 <= x1 then RowOf(x0, x1 + 1, y) else [];
      forall p: Pixel
        ensures p in row <==> x0 <= p.x <= x1 && p.y == y
      {
        if x0 <= x1 {
          InRow(x0, x1 + 1, y, p);
        }
      }
      if x0 <= x1 {
        RowOnScreen(dev, mem, symbol, start, x0, x1 + 1, y);
      }
      NothingPut(dev, mem, symbol, start);
      PutsDraw(dev, mem, symbol, start, row, (px, py) => x0 <= px <= x1 && py == y);
    }
  }

  lemma NothingPut(dev: Device, mem: Memory, symbol: u32, start: u32)
    ensures PutAll(dev, mem, symbol, start, []) == mem
  {
  }

  lemma ColumnDrawn(dev: Device, mem: Memory, symbol: u32, start: u32, x: u32, y0: u32, y1: u32)
    requires dev.Valid() && y1 < 0xFFFF_FFFF
    ensures var m := if y0 <= y1 then StoreAll(dev, mem, symbol, start, ColumnOf(x, y0, y1 + 1)) else mem;
            FrameFits(dev) && x < dev.xResolution && y1 < dev.yResolution ==>
              Drawn(dev, m, mem, symbol, start, (px, py) => px == x && y0 <= py <= y1)
  {
    hide PutAll, StoreAll, ColumnOf, Device.Valid, FrameFits, Drawn;
    if FrameFits(dev) && x < dev.xResolution && y1 < dev.yResolution {
      var column := if y0 <= y1 then ColumnOf(x, y0, y1 + 1) else [];
      forall p: Pixel
        ensures p in column <==> p.x == x && y0 <= p.y <= y1
      {
        if y0 <= y1 {
          InColumn(x, y0, y1 + 1, p);
        }
      }
      if y0 <= y1 {
        ColumnOnScreen(dev, mem, symbol, start, x, y0, y1 + 1);
      }
      NothingPut(dev, mem, symbol, start);
      PutsDraw(dev, mem, symbol, start, column, (px, py) => px == x && y0 <= py <= y1);
    }
  }

  lemma OutlineDrawn(dev: Device, mem: Memory, symbol: u32, start: u32, x0: u32, y0: u32, x1: u32, y1: u32)
    requires dev.Valid() && x1 < 0xFFFF_FFFF && y1 < 0xFFFF_FFFF
    ensures FrameFits(dev) && dev.OnScreen(x0, y0) && dev.OnScreen(x1, y1) ==>
              Drawn(dev, StoreAll(dev, mem, symbol, start, OutlineOf(x0, y0, x1, y1)), mem, symbol, start,
                    (px, py) => OnSides(x0, y0, x1, y1, px, py))
  {
    hide PutAll, StoreAll, OutlineOf, Device.Valid, FrameFits, Drawn;
    if FrameFits(dev) && dev.OnScreen(x0, y0) && dev.OnScreen(x1, y1) {
      OutlineOnScreen(dev, mem, symbol, start, x0, y0, x1, y1);
      forall p: Pixel
        ensures p in OutlineOf(x0, y0, x1, y1) <==> OnSides(x0, y0, x1, y1, p.x, p.y)
      {
        InOutline(x0, y0, x1, y1, p);
      }
      PutsDraw(dev, mem, symbol, start, OutlineOf(x0, y0, x1, y1), (px, py) => OnSides(x0, y0, x1, y1, px, py));
    }
  }

  lemma LineDrawn(dev: Device, mem: Memory, symbol: u32, start: u32, x0: u32, y0: u32, x1: u32, y1: u32)
    requires dev.Valid() && dev.OnScreen(x0, y0) && dev.OnScreen(x1, y1)
    ensures FrameFits(dev) ==>
              Drawn(dev, PutAll(dev, mem, symbol, start, Line(dev, x0, y0, x1, y1)), mem, symbol, start,
                    (px, py) => Bresenham.Covers(x0, y0, x1, y1, px, py))
  {
    hide PutAll, Line, Device.Valid, FrameFits, Drawn, Bresenham.Covers;
    if FrameFits(dev) {
      forall p: Pixel
        ensures p in Line(dev, x0, y0, x1, y1) <==> Bresenham.Covers(x0, y0, x1, y1, p.x, p.y)
      {
        InLine(dev, x0, y0, x1, y1, p);
      }
      PutsDraw(dev, mem, symbol, start, Line(dev, x0, y0, x1, y1),
               (px, py) => Bresenham.Covers(x0, y0, x1, y1, px, py));
    }
  }

  /** A line never leaves the screen. */
  lemma LineOnScreen(dev: Device, x0: u32, y0: u32, x1: u32, y1: u32, p: Pixel)
    requires dev.OnScreen(x0, y0) && dev.OnScreen(x1, y1) && p in Line(dev, x0, y0, x1, y1)
    ensures dev.OnScreen(p.x, p.y)
  {
    hide Line, Bresenham.Covers;
    InLine(dev, x0, y0, x1, y1, p);
    Bresenham.CloseToIdeal(x0, y0, x1, y1, p.x, p.y);
  }

  // ----------------------------------------------------------------- the controller

  class Controller {
    const dev: Device
    var mem: Memory

    constructor (dev: Device, mem: Memory)
      ensures this.dev == dev && this.mem == mem
    {
      this.dev, this.mem := dev, mem;
    }

    /** alt_up_video_dma_draw_helper. */
    method DrawHelper(bufferStart: u32, offset: u32, symbol: u32, dataWidth: nat)
      modifies `mem
      ensures mem == Store(old(mem), ToU32(bufferStart + offset), if dataWidth == 1 || dataWidth == 2 then dataWidth else 4, symbol)
    {
      if dataWidth == 1 {
        mem := Store(mem, ToU32(bufferStart + offset), 1, symbol);
      } else if dataWidth == 2 {
        mem := Store(mem, ToU32(bufferStart + offset), 2, symbol);
      } else {
        mem := Store(mem, ToU32(bufferStart + offset), 4, symbol);
      }
    }

    /** alt_up_video_dma_draw. */
    method Draw(symbol: u32, x: u32, y: u32, backbuffer: bool) returns (r: int)
      requires dev.Valid()
      modifies `mem
      ensures mem == dev.Put(old(mem), symbol, if backbuffer then dev.backBufferStart else dev.bufferStart, x, y)
      ensures r == if dev.OnScreen(x, y) then 0 else -1
      ensures r == -1 ==> mem == old(mem)
      ensures r == 0 ==>
                Stored(mem, old(mem), (if backbuffer then dev.backBufferStart else dev.bufferStart)
                       + Position(dev, Pixel(x, y)), dev.dataWidth, symbol)
    {
      if x >= dev.xResolution || y >= dev.yResolution {
        return -1;
      }
      var start := if backbuffer then dev.backBufferStart else dev.bufferStart;
      Pow2Small();
      PutStores(dev, mem, symbol, start, x, y);
      hide Stored, Store, Position;
      DrawHelper(start, dev.Offset(x, y), symbol, dev.dataWidth);
      return 0;
    }

    /** The inner loop of the fills and of alt_up_video_dma_draw_hline: columns lie
        x << shift bytes into the row. */
    method FillRow(symbol: u32, ghost start: u32, addr: u32, width: nat, shift: nat, l: u32, r: u32, ghost y: u32)
      requires dev.Valid() && r < 0xFFFF_FFFF
      requires width == dev.dataWidth && shift == dev.xCoordOffset
      requires addr == ToU32(start + y * dev.RowBytes())
      modifies `mem
      ensures mem == if l <= r then StoreAll(dev, old(mem), symbol, start, RowOf(l, r + 1, y)) else old(mem)
    {
      hide ToU32, Store, Device.Offset, Pow2, StoreAll;
      var x := l;
      NothingStored(dev, mem, symbol, start);
      while x <= r
        invariant l <= x <= Max(l, r + 1)
        invariant mem == StoreAll(dev, old(mem), symbol, start, RowOf(l, x, y))
      {
        AddThree(start, y * dev.RowBytes(), x * dev.dataWidth);
        StoreOne(dev, old(mem), symbol, start, RowOf(l, x, y), Pixel(x, y));
        mem := Store(mem, ToU32(addr + Shl(x, shift)), width, symbol);
        x := x + 1;
      }
    }

    /** One of the six fill loops of alt_up_video_dma_draw_box. */
    method FillRows(symbol: u32, ghost start: u32, firstRow: u32, stride: u32, width: nat, shift: nat, l: u32, r: u32, t: u32, b: u32)
      requires dev.Valid() && l <= r < 0xFFFF_FFFF && t <= b < 0xFFFF_FFFF
      requires width == dev.dataWidth && shift == dev.xCoordOffset
      requires stride == dev.RowBytes() && firstRow == ToU32(start + t * stride)
      modifies `mem
      ensures mem == StoreAll(dev, old(mem), symbol, start, BoxOf(l, r + 1, t, b + 1))
    {
      hide ToU32, Store, Device.Offset, Device.RowBytes, Pow2, StoreAll, BoxOf, RowOf;
      var addr := firstRow;
      var y := t;
      NothingStored(dev, mem, symbol, start);
      BoxGrows(l, r + 1, t, t);
      while y <= b
        invariant t <= y <= b + 1
        invariant addr == ToU32(start + y * stride)
        invariant mem == StoreAll(dev, old(mem), symbol, start, BoxOf(l, r + 1, t, y))
      {
        FillRow(symbol, start, addr, width, shift, l, r, y);
        BoxGrows(l, r + 1, t, y);
        StoreMore(dev, old(mem), symbol, start, BoxOf(l, r + 1, t, y), RowOf(l, r + 1, y));
        NextRow(start, y, stride);
        Fits(stride);
        addr := ToU32(addr + stride);
        y := y + 1;
      }
    }

    /** alt_up_video_dma_draw_hline.  There is no check of the bounds, so off the screen
        it stores wherever the address comes out; only a right end that no counter can
        pass is excluded, as the loop would not end. */
    method DrawHLine(symbol: u32, x0: u32, x1: u32, y: u32, backbuffer: bool)
      requires dev.Valid() && x1 < 0xFFFF_FFFF
      modifies `mem
      ensures var start := if backbuffer then dev.backBufferStart else dev.bufferStart;
              mem == if x0 <= x1 then StoreAll(dev, old(mem), symbol, start, RowOf(x0, x1 + 1, y)) else old(mem)
      ensures FrameFits(dev) && x1 < dev.xResolution && y < dev.yResolution ==>
                Drawn(dev, mem, old(mem), symbol, if backbuffer then dev.backBufferStart else dev.bufferStart,
                      (px, py) => x0 <= px <= x1 && py == y)
    {
      var start := if backbuffer then dev.backBufferStart else dev.bufferStart;
      RowDrawn(dev, mem, symbol, start, x0, x1, y);
      var addr := start;
      if dev.xyMode {
        addr := ToU32(addr + Shl(y, dev.yCoordOffset));
      } else {
        addr := ToU32(addr + Shl(ToU32(y * dev.xResolution), dev.xCoordOffset));
      }
      RowAddress(dev, start, y);
      Pow2Small();
      RowBytesFit(dev);
      hide StoreAll, RowOf, Store, Device.RowBytes, Drawn;
      if dev.dataWidth == 1 {
        FillRow(symbol, start, addr, 1, 0, x0, x1, y);
      } else if dev.dataWidth == 2 {
        FillRow(symbol, start, addr, 2, 1, x0, x1, y);
      } else {
        FillRow(symbol, start, addr, 4, 2, x0, x1, y);
      }
    }

    /** The loop of alt_up_video_dma_draw_vline. */
    method FillColumn(symbol: u32, ghost start: u32, addr: u32, stride: u32, width: nat, x: u32, y0: u32, y1: u32)
      requires dev.Valid() && y1 < 0xFFFF_FFFF
      requires width == dev.dataWidth && stride == dev.RowBytes()
      requires addr == ToU32(start + x * width + y0 * stride)
      modifies `mem
      ensures mem == if y0 <= y1 then StoreAll(dev, old(mem), symbol, start, ColumnOf(x, y0, y1 + 1)) else old(mem)
    {
      hide ToU32, Store, Device.Offset, Device.RowBytes, Pow2, StoreAll, ColumnOf;
      var offset: u32 := 0;
      var y := y0;
      NothingStored(dev, mem, symbol, start);
      NoColumn(x, y0);
      NoRows(stride);
      while y <= y1
        invariant y0 <= y <= Max(y0, y1 + 1)
        invariant offset == ToU32((y - y0) * stride)
        invariant mem == StoreAll(dev, old(mem), symbol, start, ColumnOf(x, y0, y))
      {
        ColumnAddress(start, x * width, y0, y, stride);
        ColumnGrows(x, y0, y);
        StoreOne(dev, old(mem), symbol, start, ColumnOf(x, y0, y), Pixel(x, y));
        mem := Store(mem, ToU32(addr + offset), width, symbol);
        offset := ToU32(offset + stride);
        y := y + 1;
      }
    }

    /** alt_up_video_dma_draw_vline. */
    method DrawVLine(symbol: u32, x: u32, y0: u32, y1: u32, backbuffer: bool)
      requires dev.Valid() && y1 < 0xFFFF_FFFF
      modifies `mem
      ensures var start := if backbuffer then dev.backBufferStart else dev.bufferStart;
              mem == if y0 <= y1 then StoreAll(dev, old(mem), symbol, start, ColumnOf(x, y0, y1 + 1)) else old(mem)
      ensures FrameFits(dev) && x < dev.xResolution && y1 < dev.yResolution ==>
                Drawn(dev, mem, old(mem), symbol, if backbuffer then dev.backBufferStart else dev.bufferStart,
                      (px, py) => px == x && y0 <= py <= y1)
    {
      var start := if backbuffer then dev.backBufferStart else dev.bufferStart;
      ColumnDrawn(dev, mem, symbol, start, x, y0, y1);
      hide Drawn;
      var addr := ToU32(start + Shl(x, dev.xCoordOffset));
      var stride := if dev.xyMode then Shl(1, dev.yCoordOffset) else Shl(dev.xResolution, dev.xCoordOffset);
      RowBytesFit(dev);
      assert stride == dev.RowBytes();
      hide StoreAll, ColumnOf, Store, Device.RowBytes, ToU32;
      ColumnStart(start, x * dev.dataWidth, y0 * stride);
      addr := ToU32(addr + ToU32(y0 * stride));
      if dev.dataWidth == 1 {
        FillColumn(symbol, start, addr, stride, 1, x, y0, y1);
      } else if dev.dataWidth == 2 {
        FillColumn(symbol, start, addr, stride, 2, x, y0, y1);
      } else {
        FillColumn(symbol, start, addr, stride, 4, x, y0, y1);
      }
    }

    /** alt_up_video_dma_draw_rectangle. */
    method DrawRectangle(symbol: u32, x0: u32, y0: u32, x1: u32, y1: u32, backbuffer: bool)
      requires dev.Valid() && x1 < 0xFFFF_FFFF && y1 < 0xFFFF_FFFF
      modifies `mem
      ensures var start := if backbuffer then dev.backBufferStart else dev.bufferStart;
              mem == StoreAll(dev, old(mem), symbol, start, OutlineOf(x0, y0, x1, y1))
      ensures FrameFits(dev) && dev.OnScreen(x0, y0) && dev.OnScreen(x1, y1) ==>
                Drawn(dev, mem, old(mem), symbol, if backbuffer then dev.backBufferStart else dev.bufferStart,
                      (px, py) => OnSides(x0, y0, x1, y1, px, py))
    {
      ghost var start := if backbuffer then dev.backBufferStart else dev.bufferStart;
      OutlineDrawn(dev, mem, symbol, start, x0, y0, x1, y1);
      hide Drawn, OnSides;
      ghost var top := if x0 <= x1 then RowOf(x0, x1 + 1, y0) else [];
      ghost var bottom := if x0 <= x1 then RowOf(x0, x1 + 1, y1) else [];
      ghost var left := if y0 <= y1 then ColumnOf(x0, y0, y1 + 1) else [];
      ghost var right := if y0 <= y1 then ColumnOf(x1, y0, y1 + 1) else [];
      assert OutlineOf(x0, y0, x1, y1) == top + bottom + left + right;
      hide StoreAll, RowOf, ColumnOf, OutlineOf;
      StoreMore(dev, mem, symbol, start, top, bottom);
      StoreMore(dev, mem, symbol, start, top + bottom, left);
      StoreMore(dev, mem, symbol, start, top + bottom + left, right);
      NothingStored(dev, mem, symbol, start);
      DrawHLine(symbol, x0, x1, y0, backbuffer);
      NothingStored(dev, mem, symbol, start);
      DrawHLine(symbol, x0, x1, y1, backbuffer);
      NothingStored(dev, mem, symbol, start);
      DrawVLine(symbol, x0, y0, y1, backbuffer);
      NothingStored(dev, mem, symbol, start);
      DrawVLine(symbol, x1, y0, y1, backbuffer);
    }

    /** A filled box in X-Y addressing mode. */
    method FillBoxXy(symbol: u32, start: u32, l: u32, r: u32, t: u32, b: u32)
      requires dev.Valid() && dev.xyMode && l <= r < dev.xResolution && t <= b < dev.yResolution
      modifies `mem
      ensures mem == StoreAll(dev, old(mem), symbol, start, BoxOf(l, r + 1, t, b + 1))
    {
      Pow2Small();
      RowBytesFit(dev);
      RowAddress(dev, start, t);
      hide StoreAll, BoxOf, ToU32, Shl, Device.RowBytes;
      var addr := ToU32(start + Shl(t, dev.yCoordOffset));
      if dev.dataWidth == 1 {
        FillRows(symbol, start, addr, Shl(1, dev.yCoordOffset), 1, 0, l, r, t, b);
      } else if dev.dataWidth == 2 {
        FillRows(symbol, start, addr, Shl(1, dev.yCoordOffset), 2, 1, l, r, t, b);
      } else {
        FillRows(symbol, start, addr, Shl(1, dev.yCoordOffset), 4, 2, l, r, t, b);
      }
    }

    /** A filled box in linear addressing mode. */
    method FillBoxLinear(symbol: u32, start: u32, l: u32, r: u32, t: u32, b: u32)
      requires dev.Valid() && !dev.xyMode && l <= r < dev.xResolution && t <= b < dev.yResolution
      modifies `mem
      ensures mem == StoreAll(dev, old(mem), symbol, start, BoxOf(l, r + 1, t, b + 1))
    {
      Pow2Small();
      RowBytesFit(dev);
      RowAddress(dev, start, t);
      hide StoreAll, BoxOf, ToU32, Shl, Device.RowBytes;
      var addr := start;
      var limitX := dev.xResolution;
      if dev.dataWidth == 1 {
        addr := ToU32(addr + ToU32(t * limitX));
        FillRows(symbol, start, addr, limitX, 1, 0, l, r, t, b);
      } else if dev.dataWidth == 2 {
        limitX := Shl(limitX, 1);
        addr := ToU32(addr + ToU32(t * limitX));
        FillRows(symbol, start, addr, limitX, 2, 1, l, r, t, b);
      } else {
        limitX := Shl(limitX, 2);
        addr := ToU32(addr + ToU32(t * limitX));
        FillRows(symbol, start, addr, limitX, 4, 2, l, r, t, b);
      }
    }

    /** The two addressing modes and three widths of a filled box. */
    method FillBox(symbol: u32, start: u32, l: u32, r: u32, t: u32, b: u32)
      requires dev.Valid() && l <= r < dev.xResolution && t <= b < dev.yResolution
      modifies `mem
      ensures mem == PutAll(dev, old(mem), symbol, start, BoxOf(l, r + 1, t, b + 1))
    {
      BoxOnScreen(dev, mem, symbol, start, l, r, t, b);
      hide StoreAll, PutAll, BoxOf;
      if dev.xyMode {
        FillBoxXy(symbol, start, l, r, t, b);
      } else {
        FillBoxLinear(symbol, start, l, r, t, b);
      }
    }

    /** alt_up_video_dma_draw_box. */
    method DrawBox(symbol: u32, x0: u32, y0: u32, x1: u32, y1: u32, backbuffer: bool, fill: bool) returns (result: int)
      requires dev.Valid()
      modifies `mem
      ensures result == if Min(x0, x1) >= dev.xResolution || Min(y0, y1) >= dev.yResolution then -1 else 0
      ensures result == -1 ==> mem == old(mem)
      ensures result == 0 ==>
                var l, t := Min(x0, x1), Min(y0, y1);
                var r, b := Min(Max(x0, x1), dev.xResolution - 1), Min(Max(y0, y1), dev.yResolution - 1);
                mem == PutAll(dev, old(mem), symbol, if backbuffer then dev.backBufferStart else dev.bufferStart,
                              if fill then BoxOf(l, r + 1, t, b + 1) else OutlineOf(l, t, r, b))
      ensures result == 0 && FrameFits(dev) && fill ==>
                Drawn(dev, mem, old(mem), symbol, if backbuffer then dev.backBufferStart else dev.bufferStart,
                      (px, py) => Min(x0, x1) <= px <= Max(x0, x1) && Min(y0, y1) <= py <= Max(y0, y1))
      ensures result == 0 && FrameFits(dev) && !fill ==>
                var r, b := Min(Max(x0, x1), dev.xResolution - 1), Min(Max(y0, y1), dev.yResolution - 1);
                Drawn(dev, mem, old(mem), symbol, if backbuffer then dev.backBufferStart else dev.bufferStart,
                      (px, py) => OnSides(Min(x0, x1), Min(y0, y1), r, b, px, py))
    {
      hide PutAll, StoreAll, BoxOf, OutlineOf, Drawn, OnSides, Device.Valid, FrameFits;
      var l, r, t, b := x0, x1, y0, y1;
      if l > r {
        l, r := r, l;
      }
      if t > b {
        t, b := b, t;
      }
      if l >= dev.xResolution || t >= dev.yResolution {
        return -1;
      }
      if r >= dev.xResolution {
        r := dev.xResolution - 1;
      }
      if b >= dev.yResolution {
        b := dev.yResolution - 1;
      }
      if !fill {
        OutlineOnScreen(dev, mem, symbol, if backbuffer then dev.backBufferStart else dev.bufferStart, l, t, r, b);
        DrawRectangle(symbol, l, t, r, b, backbuffer);
        return 0;
      }
      var start := if backbuffer then dev.backBufferStart else dev.bufferStart;
      BoxDrawn(dev, mem, symbol, start, x0, y0, x1, y1);
      FillBox(symbol, start, l, r, t, b);
      return 0;
    }

    /** alt_up_video_dma_screen_fill. */
    method ScreenFill(symbol: u32, backbuffer: bool)
      requires dev.Valid()
      modifies `mem
      ensures mem == PutAll(dev, old(mem), symbol, if backbuffer then dev.backBufferStart else dev.bufferStart,
                            BoxOf(0, dev.xResolution, 0, dev.yResolution))
      ensures FrameFits(dev) ==>
                Drawn(dev, mem, old(mem), symbol, if backbuffer then dev.backBufferStart else dev.bufferStart,
                      (px, py) => true)
    {
      ghost var start := if backbuffer then dev.backBufferStart else dev.bufferStart;
      ScreenDrawn(dev, mem, symbol, start);
      var right, bottom := ToU32(dev.xResolution - 1), ToU32(dev.yResolution - 1);
      if dev.xResolution == 0 || dev.yResolution == 0 {
        NoScreen(dev, mem, symbol, start);
      } else {
        Fits(dev.xResolution - 1);
        Fits(dev.yResolution - 1);
      }
      hide PutAll, StoreAll, BoxOf, OutlineOf, ToU32, Drawn;
      var r := DrawBox(symbol, 0, 0, right, bottom, backbuffer, true);
    }

    /** One store of the line's loop. */
    method PlotNext(symbol: u32, start: u32, s: Bresenham.Segment, lineSize: u32, x: int, y: int, ghost was: Memory)
      requires dev.Valid() && OnSegment(dev, s) && s.a1 <= x <= s.a2 && y == s.At(x)
      requires RowPixels(dev, lineSize)
      requires mem == StoreAll(dev, was, symbol, start, LineOf(s, x))
      modifies `mem
      ensures mem == StoreAll(dev, was, symbol, start, LineOf(s, x + 1))
    {
      LineGrows(dev, s, x);
      hide RowPixels, ToU32, Store, Shl, Device.Offset, Device.RowBytes, StoreAll, LineOf, LinePixel,
           OnSegment, Natural, Bresenham.Segment.At;
      var offset := Shl(if s.steep then lineSize * x + y else lineSize * y + x, dev.xCoordOffset);
      ghost var p := LinePixel(s, x);
      LineAddress(dev, start, lineSize, p);
      StoreOne(dev, was, symbol, start, LineOf(s, x), p);
      RowBytesFit(dev);
      DrawHelper(start, offset, symbol, dev.dataWidth);
    }

    /** The loop of alt_up_video_dma_draw_line, after the swaps. */
    method WalkLine(symbol: u32, start: u32, s: Bresenham.Segment, lineSize: u32)
      requires dev.Valid() && OnSegment(dev, s) && Natural(s) && RowPixels(dev, lineSize)
      modifies `mem
      ensures mem == StoreAll(dev, old(mem), symbol, start, LineOf(s, s.a2 + 1))
    {
      ghost var was := mem;
      assert s.a1 <= s.a2;
      var deltaX := s.a2 - s.a1;
      var deltaY := Abs(s.b2 - s.b1);
      var error := -(deltaX / 2);
      var y := s.b1;
      var yStep := if s.b1 < s.b2 then 1 else -1;
      var x := s.a1;
      assert deltaX == s.Dx() && deltaY == s.Dy() && yStep == s.Dir() && -(s.Dx() / 2) == error;
      hide *;
      NothingStored(dev, mem, symbol, start);
      NoLine(s);
      Departs(s);
      while x <= s.a2
        invariant s.a1 <= x <= s.a2 + 1
        invariant Arrived(s, x, y, error)
        invariant mem == StoreAll(dev, was, symbol, start, LineOf(s, x))
      {
        Advances(s, x, y, error);
        PlotNext(symbol, start, s, lineSize, x, y, was);
        error := error + deltaY;
        if error > 0 {
          y := y + yStep;
          error := error - deltaX;
        }
        x := x + 1;
      }
    }

    /** alt_up_video_dma_draw_line. */
    method DrawLine(symbol: u32, x0: u32, y0: u32, x1: u32, y1: u32, backbuffer: bool) returns (result: int)
      requires dev.Valid()
      modifies `mem
      ensures result == if dev.OnScreen(x0, y0) && dev.OnScreen(x1, y1) then 0 else -1
      ensures result == -1 ==> mem == old(mem)
      ensures result == 0 ==>
                mem == PutAll(dev, old(mem), symbol, if backbuffer then dev.backBufferStart else dev.bufferStart,
                              Line(dev, x0, y0, x1, y1))
      ensures result == 0 && FrameFits(dev) ==>
                Drawn(dev, mem, old(mem), symbol, if backbuffer then dev.backBufferStart else dev.bufferStart,
                      (px, py) => Bresenham.Covers(x0, y0, x1, y1, px, py))
    {
      var u1: int, v1: int, u2: int, v2: int := x0, y0, x1, y1;
      var steep := Abs(v2 - v1) > Abs(u2 - u1);
      if x0 >= dev.xResolution || x1 >= dev.xResolution || y0 >= dev.yResolution || y1 >= dev.yResolution {
        return -1;
      }
      if steep {
        u1, v1 := v1, u1;
        u2, v2 := v2, u2;
      }
      if u1 > u2 {
        u1, u2 := u2, u1;
        v1, v2 := v2, v1;
      }
      var s := Bresenham.Segment(steep, u1, v1, u2, v2);
      assert s == Bresenham.Normalise(x0, y0, x1, y1);
      var lineSize := if dev.xyMode then Shl(1, dev.yCoordOffset - dev.xCoordOffset) else dev.xResolution;
      LineSize(dev);
      SegmentOnScreen(dev, x0, y0, x1, y1);
      var start := if backbuffer then dev.backBufferStart else dev.bufferStart;
      LineStores(dev, mem, symbol, start, x0, y0, x1, y1);
      LineDrawn(dev, mem, symbol, start, x0, y0, x1, y1);
      hide PutAll, StoreAll, LineOf, RowPixels, Drawn, FrameFits, Bresenham.Covers, OnSegment, Natural, Device.Valid;
      WalkLine(symbol, start, s, lineSize);
      return 0;
    }
  }

  lemma {:induction false} NoBox(width: u32, height: u32)
    requires width == 0 || height == 0
    ensures BoxOf(0, width, 0, height) == []
    decreases height
  {
    if height > 0 {
      NoBox(width, height - 1);
    }
  }

  lemma NoScreen(dev: Device, mem: Memory, symbol: u32, start: u32)
    requires dev.xResolution == 0 || dev.yResolution == 0
    ensures PutAll(dev, mem, symbol, start, BoxOf(0, dev.xResolution, 0, dev.yResolution)) == mem
  {
    NoBox(dev.xResolution, dev.yResolution);
    hide BoxOf;
  }

  lemma NoColumn(x: u32, t: u32)
    ensures ColumnOf(x, t, t) == []
  {
  }

  lemma ColumnGrows(x: u32, t: u32, y: u32)
    requires t <= y < 0xFFFF_FFFF
    ensures ColumnOf(x, t, y + 1) == ColumnOf(x, t, y) + [Pixel(x, y)]
  {
  }

  lemma NothingStored(dev: Device, mem: Memory, symbol: u32, start: u32)
    ensures StoreAll(dev, mem, symbol, start, []) == mem
  {
  }

  lemma BoxOnScreen(dev: Device, mem: Memory, symbol: u32, start: u32, l: u32, r: u32, t: u32, b: u32)
    requires dev.Valid() && l <= r < dev.xResolution && t <= b < dev.yResolution
    ensures StoreAll(dev, mem, symbol, start, BoxOf(l, r + 1, t, b + 1))
         == PutAll(dev, mem, symbol, start, BoxOf(l, r + 1, t, b + 1))
  {
    hide BoxOf, StoreAll, PutAll, Device.Valid;
    forall p | p in BoxOf(l, r + 1, t, b + 1)
      ensures dev.OnScreen(p.x, p.y)
    {
      InBox(l, r + 1, t, b + 1, p);
    }
    StoresArePuts(dev, mem, symbol, start, BoxOf(l, r + 1, t, b + 1));
  }

  /** A rectangle on the screen is drawn as alt_up_video_dma_draw would draw its sides. */
  lemma OutlineOnScreen(dev: Device, mem: Memory, symbol: u32, start: u32, x0: u32, y0: u32, x1: u32, y1: u32)
    requires dev.Valid() && dev.OnScreen(x0, y0) && dev.OnScreen(x1, y1)
    ensures StoreAll(dev, mem, symbol, start, OutlineOf(x0, y0, x1, y1))
         == PutAll(dev, mem, symbol, start, OutlineOf(x0, y0, x1, y1))
  {
    hide OutlineOf, StoreAll, PutAll, Device.Valid;
    forall p | p in OutlineOf(x0, y0, x1, y1)
      ensures dev.OnScreen(p.x, p.y)
    {
      InOutline(x0, y0, x1, y1, p);
    }
    StoresArePuts(dev, mem, symbol, start, OutlineOf(x0, y0, x1, y1));
  }

  /** So is a row, and so is a column. */
  lemma RowOnScreen(dev: Device, mem: Memory, symbol: u32, start: u32, l: u32, r: u32, y: u32)
    requires dev.Valid() && l <= r <= dev.xResolution && y < dev.yResolution
    ensures StoreAll(dev, mem, symbol, start, RowOf(l, r, y)) == PutAll(dev, mem, symbol, start, RowOf(l, r, y))
  {
    hide RowOf, StoreAll, PutAll, Device.Valid;
    forall p | p in RowOf(l, r, y)
      ensures dev.OnScreen(p.x, p.y)
    {
      InRow(l, r, y, p);
    }
    StoresArePuts(dev, mem, symbol, start, RowOf(l, r, y));
  }

  lemma ColumnOnScreen(dev: Device, mem: Memory, symbol: u32, start: u32, x: u32, t: u32, b: u32)
    requires dev.Valid() && t <= b <= dev.yResolution && x < dev.xResolution
    ensures StoreAll(dev, mem, symbol, start, ColumnOf(x, t, b)) == PutAll(dev, mem, symbol, start, ColumnOf(x, t, b))
  {
    hide ColumnOf, StoreAll, PutAll, Device.Valid;
    forall p | p in ColumnOf(x, t, b)
      ensures dev.OnScreen(p.x, p.y)
    {
      InColumn(x, t, b, p);
    }
    StoresArePuts(dev, mem, symbol, start, ColumnOf(x, t, b));
  }

  lemma SegmentOnScreen(dev: Device, x0: u32, y0: u32, x1: u32, y1: u32)
    requires dev.OnScreen(x0, y0) && dev.OnScreen(x1, y1)
    ensures var s := Bresenham.Normalise(x0, y0, x1, y1); OnSegment(dev, s) && Natural(s)
  {
  }

  lemma LineStores(dev: Device, mem: Memory, symbol: u32, start: u32, x0: u32, y0: u32, x1: u32, y1: u32)
    requires dev.Valid() && dev.OnScreen(x0, y0) && dev.OnScreen(x1, y1)
    ensures StoreAll(dev, mem, symbol, start, Line(dev, x0, y0, x1, y1))
         == PutAll(dev, mem, symbol, start, Line(dev, x0, y0, x1, y1))
  {
    hide Line, StoreAll, PutAll, Device.Valid;
    forall p | p in Line(dev, x0, y0, x1, y1)
      ensures dev.OnScreen(p.x, p.y)
    {
      LineOnScreen(dev, x0, y0, x1, y1, p);
    }
    StoresArePuts(dev, mem, symbol, start, Line(dev, x0, y0, x1, y1));
  }
}
