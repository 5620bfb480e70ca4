/** The packed 4bpp driver (fblin4.c): two pixels a byte, the left one in the high nibble. */
module Linear4 {
  import opened Bits
  import opened Rows
  import opened Rops
  import opened Screens
  import opened Glyphs

  type Nibble = n: Bits | |n| == 4 witness [false, false, false, false]

  // The high nibble (h = 0) or the low one
  function Half(a: Byte, h: nat): Nibble
    requires h < 2
  {
    if h == 0 then a[..4] else a[4..]
  }

  // Nibble q of the memory, high nibbles first
  function NibbleAt(bytes: seq<Byte>, q: nat): Nibble
    requires q / 2 < |bytes|
  {
    Half(bytes[q / 2], q % 2)
  }

  function Nibbles(bytes: seq<Byte>): (s: seq<Nibble>)
    ensures |s| == 2 * |bytes|
  {
    seq(2 * |bytes|, q requires 0 <= q < 2 * |bytes| => NibbleAt(bytes, q))
  }

  // Low nibble of a pixel value
  function Low(c: Byte): Nibble { c[4..] }

  // A pixel value that fits a nibble
  predicate Small(c: Byte) { c[..4] == [false, false, false, false] }

  const NOTMASK: seq<Byte> := [
    [false, false, false, false, true, true, true, true],
    [true, true, true, true, false, false, false, false]]

  // *addr = (*addr & notmask[x&1]) | (c << ((1-(x&1))<<2))
  function Store(a: Byte, x: nat, c: Byte): Byte {
    Or(And(a, NOTMASK[x % 2]), Shl(c, 4 * (1 - x % 2)))
  }

  // *addr >> ((1-(x&1))<<2)
  function Load(a: Byte, x: nat): Byte { Shr(a, 4 * (1 - x % 2)) }

  // c & 0x0f
  function Masked(c: Byte): Byte { And(c, NOTMASK[0]) }

  lemma StoreBit(a: Byte, x: nat, c: Byte, k: nat)
    requires k < 8
    ensures Store(a, x, c)[k] ==
      if x % 2 == 1 then (k < 4 && a[k]) || c[k] else (k >= 4 && a[k]) || (k < 4 && c[k + 4])
  {
    assert NOTMASK[0][k] == (k >= 4) && NOTMASK[1][k] == (k < 4);
  }

  lemma StoreNibble(a: Byte, x: nat, c: Byte)
    requires Small(c)
    ensures Half(Store(a, x, c), x % 2) == Low(c)
    ensures Half(Store(a, x, c), 1 - x % 2) == Half(a, 1 - x % 2)
  {
    hide Store;
    var r := Store(a, x, c);
    var stored, low, kept, other := Half(r, x % 2), Low(c), Half(r, 1 - x % 2), Half(a, 1 - x % 2);
    forall k | 0 <= k < 4 ensures stored[k] == low[k] {
      StoreBit(a, x, c, k);
      StoreBit(a, x, c, k + 4);
    }
    forall k | 0 <= k < 4 ensures kept[k] == other[k] {
      StoreBit(a, x, c, k);
      StoreBit(a, x, c, k + 4);
      assert c[..4][k] == c[k];
    }
  }

  // A value that does not fit spoils the left neighbour of an odd pixel: it is stored by itself just if it fits
  lemma StoreSpares(c: Byte)
    ensures (forall a: Byte {:trigger Store(a, 1, c)} :: Store(a, 1, c)[..4] == a[..4]) <==> Small(c)
  {
    if Small(c) {
      forall a: Byte {:trigger Store(a, 1, c)} ensures Store(a, 1, c)[..4] == a[..4] {
        StoreNibble(a, 1, c);
      }
    } else {
      var a: Byte := Fill(8, false);
      assert exists k | 0 <= k < 4 :: c[k];
      var k :| 0 <= k < 4 && c[k];
      assert Store(a, 1, c)[..4][k] && !a[..4][k];
    }
  }

  lemma LoadNibble(a: Byte, x: nat)
    ensures Low(Load(a, x)) == Half(a, x % 2)
  {
  }

  lemma MaskedNibble(c: Byte)
    ensures Small(Masked(c)) && Low(Masked(c)) == Low(c)
  {
  }

  // applyOpR works on each nibble by itself
  lemma OpOnNibble(op: nat, s: Byte, d: Byte, bg: Byte)
    ensures Low(ApplyOpR(op, s, d, bg)) == ApplyOpR(op, Low(s), Low(d), Low(bg))
  {
  }

  // Storing at pixel q of the memory changes that nibble alone
  lemma StoreAt(bytes: seq<Byte>, q: nat, x: nat, c: Byte)
    requires q / 2 < |bytes| && q % 2 == x % 2 && Small(c)
    ensures Nibbles(bytes[q / 2 := Store(bytes[q / 2], x, c)]) == Nibbles(bytes)[q := Low(c)]
  {
    hide Store, Half, Small, Low;
    var after := bytes[q / 2 := Store(bytes[q / 2], x, c)];
    StoreNibble(bytes[q / 2], x, c);
    forall p | 0 <= p < 2 * |bytes| ensures Nibbles(after)[p] == Nibbles(bytes)[q := Low(c)][p] {
      if p / 2 == q / 2 && p != q {
        assert p % 2 == 1 - x % 2;
      }
    }
  }

  /** gr_mode, a colour and gr_background. */
  datatype Ink = Ink(op: nat, c: Byte, bg: Byte) {
    // What pixel x, in the byte a, is drawn over with
    function Over(a: Byte, x: nat): Byte {
      if op == MWROP_COPY then Store(a, x, c) else Store(a, x, Masked(ApplyOpR(op, c, Load(a, x), bg)))
    }
  }

  lemma OverAt(bytes: seq<Byte>, q: nat, x: nat, ink: Ink)
    requires q / 2 < |bytes| && q % 2 == x % 2 && Small(ink.c)
    ensures Nibbles(bytes[q / 2 := ink.Over(bytes[q / 2], x)])
      == Nibbles(bytes)[q := ApplyOpR(ink.op, Low(ink.c), Nibbles(bytes)[q], Low(ink.bg))]
  {
    if ink.op == MWROP_COPY {
      StoreAt(bytes, q, x, ink.c);
    } else {
      var d := Load(bytes[q / 2], x);
      LoadNibble(bytes[q / 2], x);
      OpOnNibble(ink.op, ink.c, d, ink.bg);
      MaskedNibble(ApplyOpR(ink.op, ink.c, d, ink.bg));
      StoreAt(bytes, q, x, Masked(ApplyOpR(ink.op, ink.c, d, ink.bg)));
    }
  }

  // The place of pixel x of row y among the nibbles
  ghost function Place(pitch: nat, x: nat, y: nat): nat { Row(2 * pitch, y) + x }

  lemma {:induction false} DoubleRow(pitch: nat, y: nat)
    ensures Row(2 * pitch, y) == 2 * Row(pitch, y)
  {
    if y > 0 { DoubleRow(pitch, y - 1); }
  }

  lemma PlaceByte(pitch: nat, x: nat, y: nat)
    ensures Place(pitch, x, y) / 2 == Row(pitch, y) + x / 2 && Place(pitch, x, y) % 2 == x % 2
  {
    DoubleRow(pitch, y);
  }

  lemma PlaceInjective(pitch: nat, x: nat, y: nat, x': nat, y': nat)
    requires x < 2 * pitch && x' < 2 * pitch && Place(pitch, x, y) == Place(pitch, x', y')
    ensures x == x' && y == y'
  {
    if y < y' { RowMonotone(2 * pitch, y, y'); }
    if y' < y { RowMonotone(2 * pitch, y', y); }
  }

  // Each pixel of the box has been drawn on once; no other nibble has changed
  ghost predicate Drawn(before: seq<Byte>, after: seq<Byte>, pitch: nat, ink: Ink, box: Box) {
    && |after| == |before|
    && forall x: nat, y: nat | x < 2 * pitch && Place(pitch, x, y) < 2 * |before| ::
         Nibbles(after)[Place(pitch, x, y)]
           == if box.Has(x, y) then ApplyOpR(ink.op, Low(ink.c), Nibbles(before)[Place(pitch, x, y)], Low(ink.bg))
              else Nibbles(before)[Place(pitch, x, y)]
  }

  lemma DrawnNothing(bytes: seq<Byte>, pitch: nat, ink: Ink, box: Box)
    requires box.x1 > box.x2 || box.y1 > box.y2
    ensures Drawn(bytes, bytes, pitch, ink, box)
  {
  }

  lemma DrawnPixel(bytes: seq<Byte>, pitch: nat, ink: Ink, x: nat, y: nat, p: int)
    requires x < 2 * pitch && p == Row(pitch, y) + x / 2 < |bytes| && Small(ink.c)
    ensures Drawn(bytes, bytes[p := ink.Over(bytes[p], x)], pitch, ink, Box(x, y, x, y))
  {
    var q := Place(pitch, x, y);
    PlaceByte(pitch, x, y);
    OverAt(bytes, q, x, ink);
    var after := bytes[p := ink.Over(bytes[p], x)];
    forall x': nat, y': nat | x' < 2 * pitch && Place(pitch, x', y') < 2 * |bytes|
      ensures Nibbles(after)[Place(pitch, x', y')]
        == if Box(x, y, x, y).Has(x', y')
           then ApplyOpR(ink.op, Low(ink.c), Nibbles(bytes)[Place(pitch, x', y')], Low(ink.bg))
           else Nibbles(bytes)[Place(pitch, x', y')]
    {
      if Place(pitch, x', y') == q {
        PlaceInjective(pitch, x, y, x', y');
      }
    }
  }

  // A line one pixel longer
  lemma DrawnFurther(f: seq<Byte>, g: seq<Byte>, pitch: nat, ink: Ink, line: Box, x: nat, y: nat, p: int, longer: Box)
    requires Drawn(f, g, pitch, ink, line) && x < 2 * pitch && p == Row(pitch, y) + x / 2 < |f| && Small(ink.c)
    requires (line == Box(longer.x1, y, x - 1, y) && longer.y1 == y) || (line == Box(x, longer.y1, x, y - 1)
        && longer.x1 == x)
    requires longer.x2 == x && longer.y2 == y && longer.x1 <= x && longer.y1 <= y
    ensures Drawn(f, g[p := ink.Over(g[p], x)], pitch, ink, longer)
  {
    hide Nibbles, Place, Ink.Over, ApplyOpR, Small, Row;
    DrawnPixel(g, pitch, ink, x, y, p);
  }

  // A pixel of a 4bpp screen
  ghost predicate OnScreen(psd: Psd, x: int, y: int)
    reads psd
  {
    && 0 <= x < psd.xres && 0 <= y < psd.yres && psd.xres <= 2 * psd.pitch
        && Row(psd.pitch, psd.yres) <= psd.addr.Length
  }

  lemma OnScreenByte(psd: Psd, x: int, y: int)
    requires OnScreen(psd, x, y)
    ensures 0 <= x < 2 * psd.pitch && 0 <= y && y * psd.pitch == Row(psd.pitch, y)
        && 0 <= Row(psd.pitch, y) + x / 2 < psd.addr.Length
  {
    RowIsProduct(psd.pitch, y);
    RowMonotone(psd.pitch, y, psd.yres);
  }

  /** linear4_drawpixel */
  method DrawPixel(psd: Psd, x: int, y: int, ink: Ink)
    requires OnScreen(psd, x, y) && Small(ink.c)
    modifies psd.addr
    ensures Drawn(old(psd.addr[..]), psd.addr[..], psd.pitch, ink, Box(x, y, x, y))
  {
    OnScreenByte(psd, x, y);
    var addr := y * psd.pitch + x / 2;
    DrawnPixel(psd.addr[..], psd.pitch, ink, x, y, addr);
    psd.addr[addr] := ink.Over(psd.addr[addr], x);
  }

  /** linear4_readpixel */
  method ReadPixel(psd: Psd, x: int, y: int) returns (c: Byte)
    requires OnScreen(psd, x, y)
    ensures Place(psd.pitch, x, y) < 2 * psd.addr.Length
    ensures Small(c) && Low(c) == Nibbles(psd.addr[..])[Place(psd.pitch, x, y)]
    ensures 0 <= psd.pitch * y + x / 2 < psd.addr.Length
    ensures c[4..] == if x % 2 == 0 then psd.addr[psd.pitch * y + x / 2][..4] else psd.addr[psd.pitch * y + x / 2][4..]
  {
    OnScreenByte(psd, x, y);
    PlaceByte(psd.pitch, x, y);
    var addr := y * psd.pitch + x / 2;
    LoadNibble(psd.addr[addr], x);
    MaskedNibble(Load(psd.addr[addr], x));
    c := Masked(Load(psd.addr[addr], x));
  }

  /** linear4_drawhorzline */
  method DrawHorzLine(psd: Psd, x1: int, x2: int, y: int, ink: Ink)
    requires OnScreen(psd, x1, y) && OnScreen(psd, x2, y) && x1 <= x2 && Small(ink.c)
    modifies psd.addr
    ensures Drawn(old(psd.addr[..]), psd.addr[..], psd.pitch, ink, Box(x1, y, x2, y))
  {
    hide Drawn, Nibbles, Place, Ink.Over, ApplyOpR, Small, Row;
    ghost var f := psd.addr[..];
    OnScreenByte(psd, x1, y);
    var addr, x := y * psd.pitch + x1 / 2, x1;
    DrawnNothing(f, psd.pitch, ink, Box(x1, y, x1 - 1, y));
    while x <= x2
      invariant x1 <= x <= x2 + 1 && addr == Row(psd.pitch, y) + x / 2
      invariant Drawn(f, psd.addr[..], psd.pitch, ink, Box(x1, y, x - 1, y))
    {
      InRow(psd, x1, x2, y, x);
      DrawnFurther(f, psd.addr[..], psd.pitch, ink, Box(x1, y, x - 1, y), x, y, addr, Box(x1, y, x, y));
      psd.addr[addr] := ink.Over(psd.addr[addr], x);
      x := x + 1;
      if x % 2 == 0 {
        addr := addr + 1;
      }
    }
  }

  lemma InRow(psd: Psd, x1: int, x2: int, y: int, x: int)
    requires OnScreen(psd, x1, y) && OnScreen(psd, x2, y) && x1 <= x <= x2
    ensures 0 <= x < 2 * psd.pitch && 0 <= Row(psd.pitch, y) + x / 2 < psd.addr.Length
  {
    OnScreenByte(psd, x, y);
  }

  lemma InColumn(psd: Psd, x: int, y1: int, y2: int, y: int)
    requires OnScreen(psd, x, y1) && OnScreen(psd, x, y2) && y1 <= y <= y2
    ensures 0 <= x < 2 * psd.pitch && 0 <= Row(psd.pitch, y) + x / 2 < psd.addr.Length
    ensures Row(psd.pitch, y + 1) == Row(psd.pitch, y) + psd.pitch
  {
    OnScreenByte(psd, x, y);
  }

  /** linear4_drawvertline */
  method DrawVertLine(psd: Psd, x: int, y1: int, y2: int, ink: Ink)
    requires OnScreen(psd, x, y1) && OnScreen(psd, x, y2) && y1 <= y2 && Small(ink.c)
    modifies psd.addr
    ensures Drawn(old(psd.addr[..]), psd.addr[..], psd.pitch, ink, Box(x, y1, x, y2))
  {
    hide Drawn, Nibbles, Place, Ink.Over, ApplyOpR, Small, Row;
    ghost var f := psd.addr[..];
    OnScreenByte(psd, x, y1);
    var addr, y := y1 * psd.pitch + x / 2, y1;
    DrawnNothing(f, psd.pitch, ink, Box(x, y1, x, y1 - 1));
    while y <= y2
      invariant y1 <= y <= y2 + 1 && addr == Row(psd.pitch, y) + x / 2
      invariant Drawn(f, psd.addr[..], psd.pitch, ink, Box(x, y1, x, y - 1))
    {
      InColumn(psd, x, y1, y2, y);
      DrawnFurther(f, psd.addr[..], psd.pitch, ink, Box(x, y1, x, y - 1), x, y, addr, Box(x, y1, x, y));
      psd.addr[addr] := ink.Over(psd.addr[addr], x);
      addr := addr + psd.pitch;
      y := y + 1;
    }
  }

  // What one bit of a bitmap does to a byte
  function Inked(b: Byte, x: nat, bit: bool, pen: Pen<Byte>): Byte {
    if bit then Store(b, x, pen.fg) else if pen.usebg then Store(b, x, pen.bg) else b
  }

  // Drawing one bit of a bitmap at nibble q
  lemma BitAt(before: seq<Byte>, now: seq<Byte>, q: nat, bits: Bits, x: nat, bit: bool, pen: Pen<Byte>, p: nat)
    requires q + |bits| < 2 * |before| && Small(pen.fg) && (pen.usebg ==> Small(pen.bg)) && (q + |bits|) % 2 == x % 2
    requires |now| == |before| && Nibbles(now) == Stroke(Nibbles(before), q, bits, LowPen(pen)) && p == (q + |bits|) / 2
    ensures Nibbles(now[p := Inked(now[p], x, bit, pen)]) == Stroke(Nibbles(before), q, bits + [bit], LowPen(pen))
  {
    hide Nibbles, Store, Small, Low, Stroke;
    StoreAt(now, q + |bits|, x, pen.fg);
    if pen.usebg {
      StoreAt(now, q + |bits|, x, pen.bg);
    }
    assert now[p := now[p]] == now;
    StrokeBit(Nibbles(before), q, bits, bit, LowPen(pen));
  }

  // The pen, on nibbles
  function LowPen(pen: Pen<Byte>): Pen<Nibble> { Pen(Low(pen.fg), Low(pen.bg), pen.usebg) }

  /** Bits f to t of a byte of a bitmap, one nibble each. */
  method DrawBits(out: array<Byte>, a: nat, x0: nat, byte: Byte, f: nat, t: nat, pen: Pen<Byte>)
    returns (addr: nat, x: nat)
    requires f <= t <= 8 && 2 * a + x0 % 2 + t - f <= 2 * out.Length && Small(pen.fg) && (pen.usebg ==> Small(pen.bg))
    modifies out
    ensures x == x0 + t - f && 2 * addr + x % 2 == 2 * a + x0 % 2 + t - f
    ensures Nibbles(out[..]) == Stroke(Nibbles(old(out[..])), 2 * a + x0 % 2, byte[f..t], LowPen(pen))
  {
    hide *;
    ghost var before, q := out[..], 2 * a + x0 % 2;
    var mask := f;
    addr, x := a, x0;
    assert Nibbles(out[..]) == Stroke(Nibbles(before), q, byte[f..f], LowPen(pen)) by {
      StrokeEmpty(Nibbles(before), q, byte[f..f], LowPen(pen));
    }
    while mask < t
      invariant f <= mask <= t && x == x0 + mask - f && 2 * addr + x % 2 == q + mask - f
      invariant Nibbles(out[..]) == Stroke(Nibbles(before), q, byte[f..mask], LowPen(pen))
    {
      BitAt(before, out[..], q, byte[f..mask], x, byte[mask], pen, addr);
      SliceNext(byte, f, mask);
      out[addr] := Inked(out[addr], x, byte[mask], pen);
      x := x + 1;
      if x % 2 == 0 {
        addr := addr + 1;
      }
      mask := mask + 1;
    }
  }

  /** One row of linear4_convblit_copy_mask_mono_byte_msb. */
  method DrawRow(out: array<Byte>, a: nat, x0: nat, data: array<Byte>, s: nat, split: Split, pen: Pen<Byte>,
                 ghost base: nat, ghost srcx: nat, ghost width: nat)
    returns (src: nat)
    requires data != out && split == SplitOf(srcx, width) && s == base + srcx / 8
    requires base + (srcx + width + 7) / 8 <= data.Length && 2 * a + x0 % 2 + width <= 2 * out.Length
    requires Small(pen.fg) && (pen.usebg ==> Small(pen.bg))
    modifies out
    ensures src == s + (srcx + width - 1) / 8 - srcx / 8 + 1
    ensures Nibbles(out[..]) == Stroke(Nibbles(old(out[..])), 2 * a + x0 % 2, RowBits(data[..], base, srcx, width),
        LowPen(pen))
  {
    hide *;
    ghost var before, d, bytes, bits, low := Nibbles(out[..]), 2 * a + x0 % 2, data[..],
        RowBits(data[..], base, srcx, width),
        LowPen(pen);
    ghost var n := 0;
    SplitCovers(srcx, width, split);
    StrokeNothing(before, d, bytes, base, srcx, width, bits, low);
    src := s;
    var addr, x := a, x0;
    if split.prefix < 8 {
      PieceDrawn(before, Nibbles(out[..]), d, bytes, base, srcx, width, src - s, split.prefix, 8, n, low);
      addr, x := DrawBits(out, addr, x, data[src], split.prefix, 8, pen);
      n := 8 - split.prefix;
      src := src + 1;
    }
    addr, x := DrawWhole(out, addr, x, data, src, split.sizeMain, pen, before, d, base, srcx, width, n);
    n := n + 8 * split.sizeMain;
    src := src + split.sizeMain;
    if split.postfixLast < 8 {
      PieceDrawn(before, Nibbles(out[..]), d, bytes, base, srcx, width, src - s, split.postfixFirst,
          split.postfixLast + 1, n, low);
      addr, x := DrawBits(out, addr, x, data[src], split.postfixFirst, split.postfixLast + 1, pen);
      n := n + split.postfixLast + 1 - split.postfixFirst;
      src := src + 1;
    }
  }

  // The loop over the whole bytes of a row
  method DrawWhole(out: array<Byte>, a: nat, x0: nat, data: array<Byte>, s0: nat, sizeMain: nat, pen: Pen<Byte>,
                   ghost before: seq<Nibble>, ghost d: nat, ghost base: nat, ghost srcx: nat, ghost width: nat,
                   ghost n0: nat)
    returns (addr: nat, x: nat)
    requires data != out && base + (srcx + width + 7) / 8 <= data.Length && d + width <= |before| == 2 * out.Length
    requires 2 * a + x0 % 2 == d + n0 && n0 + 8 * sizeMain <= width && s0 >= base + srcx / 8
    requires sizeMain > 0 ==> 8 * (s0 - base - srcx / 8) == srcx % 8 + n0
    requires n0 <= |RowBits(data[..], base, srcx, width)| == width
    requires Small(pen.fg) && (pen.usebg ==> Small(pen.bg))
    requires Nibbles(out[..]) == Stroke(before, d, RowBits(data[..], base, srcx, width)[..n0], LowPen(pen))
    modifies out
    ensures 2 * addr + x % 2 == d + n0 + 8 * sizeMain
    ensures Nibbles(out[..])
      == Stroke(before, d, RowBits(data[..], base, srcx, width)[..n0 + 8 * sizeMain], LowPen(pen))
  {
    hide *;
    ghost var bytes, bits, n, low := data[..], RowBits(data[..], base, srcx, width), n0, LowPen(pen);
    addr, x := a, x0;
    var src, t := s0, sizeMain;
    while t != 0
      invariant 0 <= t <= sizeMain && n == n0 + 8 * (sizeMain - t)
      invariant 2 * addr + x % 2 == d + n && src == s0 + sizeMain - t
      invariant data[..] == bytes && Nibbles(out[..]) == Stroke(before, d, bits[..n], low)
    {
      PieceDrawn(before, Nibbles(out[..]), d, bytes, base, srcx, width, src - base - srcx / 8, 0, 8, n, low);
      addr, x := DrawBits(out, addr, x, data[src], 0, 8, pen);
      n := n + 8;
      src, t := src + 1, t - 1;
    }
  }

  // Each pixel under a set bit of the bitmap has become the foreground, each under a clear one the background or
  // nothing; no other nibble has changed
  ghost predicate GlyphDrawn(before: seq<Byte>, after: seq<Byte>, pitch: nat, b: Bitmap, pen: Pen<Byte>, dstx: nat,
                             dsty: nat)
    requires b.Fits()
  {
    && |after| == |before|
    && forall x: nat, y: nat | x < 2 * pitch && Place(pitch, x, y) < 2 * |before| ::
         Nibbles(after)[Place(pitch, x, y)] == if dstx <= x < dstx + b.width && dsty <= y < dsty + b.height
           then LowPen(pen).On(b.Bit(x - dstx, y - dsty), Nibbles(before)[Place(pitch, x, y)])
           else Nibbles(before)[Place(pitch, x, y)]
  }

  // The drawing area is inside the memory
  ghost predicate Clipped(size: nat, pitch: nat, b: Bitmap, dstx: nat, dsty: nat) {
    b.Fits() && dstx + b.width <= 2 * pitch && Row(pitch, dsty + b.height) <= size
  }

  lemma ClippedFits(size: nat, pitch: nat, b: Bitmap, dstx: nat, dsty: nat)
    requires Clipped(size, pitch, b, dstx, dsty)
    ensures b.Fits() && dstx + b.width <= 2 * pitch
    ensures b.height > 0 ==> Row(2 * pitch, dsty + b.height - 1) + dstx + b.width <= 2 * size
    ensures RowsFit(2 * size, Row(2 * pitch, dsty) + dstx, 2 * pitch, b.Lines())
  {
    if b.height > 0 {
      RowMonotone(pitch, dsty + b.height - 1, dsty + b.height);
      DoubleRow(pitch, dsty + b.height - 1);
      RowSum(2 * pitch, dsty, b.height - 1);
    }
    LinesFit(2 * size, Row(2 * pitch, dsty) + dstx, 2 * pitch, b.Lines(), b.width);
  }

  lemma StrokesAreGlyph(before: seq<Byte>, after: seq<Byte>, pitch: nat, b: Bitmap, pen: Pen<Byte>, dstx: nat,
                        dsty: nat)
    requires Clipped(|before|, pitch, b, dstx, dsty) && |after| == |before|
    requires RowsFit(2 * |before|, Row(2 * pitch, dsty) + dstx, 2 * pitch, b.Lines())
    requires Nibbles(after) == Strokes(Nibbles(before), Row(2 * pitch, dsty) + dstx, 2 * pitch, b.Lines(), LowPen(pen))
    ensures GlyphDrawn(before, after, pitch, b, pen, dstx, dsty)
  {
    hide Nibbles, LowPen, Strokes, RowsFit, Clipped, Bitmap.Fits, Bitmap.Lines, Bitmap.Bit;
    ClippedFits(|before|, pitch, b, dstx, dsty);
    forall x: nat, y: nat | x < 2 * pitch && Place(pitch, x, y) < 2 * |before|
      ensures Nibbles(after)[Place(pitch, x, y)] == if dstx <= x < dstx + b.width && dsty <= y < dsty + b.height
        then LowPen(pen).On(b.Bit(x - dstx, y - dsty), Nibbles(before)[Place(pitch, x, y)])
        else Nibbles(before)[Place(pitch, x, y)]
    {
      StrokesOn(Nibbles(before), 2 * pitch, b, LowPen(pen), dstx, dsty, x, y);
    }
  }

  // Where a row of the drawing starts
  lemma RowStart(pitch: nat, x: nat, y: nat)
    ensures 2 * (x / 2 + y * pitch) + x % 2 == Row(2 * pitch, y) + x
    ensures Row(2 * pitch, y + 1) == Row(2 * pitch, y) + 2 * pitch
  {
    DoubleRow(pitch, y);
    RowIsProduct(pitch, y);
  }

  /** linear4_convblit_copy_mask_mono_byte_msb */
  method CopyMaskMonoByteMSB(gc: GlyphParms, data: array<Byte>, out: array<Byte>)
    requires data != out && Small(gc.fg) && (gc.usebg ==> Small(gc.bg))
    requires Clipped(out.Length, gc.dstPitch, gc.Source(data[..]), gc.dstx, gc.dsty)
    modifies out
    ensures GlyphDrawn(old(out[..]), out[..], gc.dstPitch, gc.Source(data[..]), Pen(gc.fg, gc.bg, gc.usebg), gc.dstx,
                       gc.dsty)
  {
    hide Row, Strokes, Stroke, RowsFit, RowBits, SplitOf, Remaining, Bitmap.Fits, Bitmap.Lines, Clipped, GlyphDrawn,
        Nibbles,
        LowPen, Small;
    ghost var b, bytes := gc.Source(data[..]), out[..];
    ClippedFits(out.Length, gc.dstPitch, b, gc.dstx, gc.dsty);
    ghost var lines := b.Lines();
    ghost var before, stride, d0, low := Nibbles(bytes), 2 * gc.dstPitch, Row(2 * gc.dstPitch, gc.dsty) + gc.dstx,
        LowPen(Pen(gc.fg, gc.bg, gc.usebg));
    var pen := Pen(gc.fg, gc.bg, gc.usebg);
    var split := SplitOf(gc.srcx, gc.width);
    var firstByte, lastByte := gc.srcx / 8, (gc.srcx + gc.width - 1) / 8;
    var src: int := gc.srcPitch * gc.srcy + firstByte;
    var advanceSrc := gc.srcPitch - lastByte + firstByte - 1;
    FirstByte(gc.srcPitch, gc.srcy, firstByte);
    RemainingAll(before, d0, stride, lines, low);
    var y := 0;
    while y < gc.height
      invariant 0 <= y <= gc.height && data[..] == b.data
      invariant src == Row(gc.srcPitch, gc.srcy + y) + firstByte
      invariant Remaining(before, Nibbles(out[..]), d0, Row(stride, gc.dsty + y) + gc.dstx, stride, lines, y, low)
    {
      var addr := gc.dstx / 2 + (gc.dsty + y) * gc.dstPitch;
      RowStart(gc.dstPitch, gc.dstx, gc.dsty + y);
      b.LineIs(y, Row(gc.srcPitch, gc.srcy + y));
      RemainingRow(before, Nibbles(out[..]), d0, Row(stride, gc.dsty + y) + gc.dstx, stride, lines, y, low);
      src := DrawRow(out, addr, gc.dstx, data, src, split, pen, Row(gc.srcPitch, gc.srcy + y), gc.srcx, gc.width);
      src, y := src + advanceSrc, y + 1;
    }
    RemainingNone(before, Nibbles(out[..]), d0, Row(stride, gc.dsty + y) + gc.dstx, stride, lines, low);
    StrokesAreGlyph(bytes, out[..], gc.dstPitch, b, pen, gc.dstx, gc.dsty);
  }
}
