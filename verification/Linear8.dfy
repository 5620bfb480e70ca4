/** The 8bpp driver (fblin8.c): pixels and lines drawn with a raster operation. */
module Linear8 {
  import opened Bits
  import opened Rows
  import opened Rops
  import opened Frames
  import opened Screens
  import opened Glyphs

  /** gr_mode, a colour and gr_background. */
  datatype Ink = Ink(op: nat, c: Byte, bg: Byte)

  // Each pixel of the box has been drawn on once; nothing else has changed
  ghost predicate Drawn(before: Frame, after: Frame, ink: Ink, box: Box)
    requires before.Valid() && before.n == 1
  {
    && before.SamePadding(after)
    && forall x, y | before.In(x, y) ::
         after.At(x, y)
           == if box.Has(x, y) then [ApplyOp(ink.op, ink.c, before.At(x, y)[0], ink.bg)] else before.At(x, y)
  }

  lemma DrawnNothing(f: Frame, ink: Ink, box: Box)
    requires f.Valid() && f.n == 1 && (box.x1 > box.x2 || box.y1 > box.y2)
    ensures Drawn(f, f, ink, box)
  {
  }

  // Drawing two parts of a box, apart from each other, draws the box
  lemma DrawnBoth(f: Frame, g: Frame, h: Frame, ink: Ink, a: Box, b: Box, box: Box)
    requires f.Valid() && f.n == 1 && g.Valid() && g.n == 1 && Drawn(f, g, ink, a) && Drawn(g, h, ink, b)
    requires forall x, y | f.In(x, y) :: box.Has(x, y) == (a.Has(x, y) || b.Has(x, y)) && !(a.Has(x, y) && b.Has(x, y))
    ensures Drawn(f, h, ink, box)
  {
    f.PaddingChain(g, h);
  }

  lemma DrawnPixel(f: Frame, ink: Ink, x: int, y: int, p: int)
    requires f.Valid() && f.n == 1 && f.In(x, y) && p == Row(f.pitch, y) + x
    ensures 0 <= p < |f.bytes|
    ensures Drawn(f, f.(bytes := f.bytes[p := ApplyOp(ink.op, ink.c, f.bytes[p], ink.bg)]), ink, Box(x, y, x, y))
  {
    f.OneByte(x, y);
    var v := [ApplyOp(ink.op, ink.c, f.bytes[p], ink.bg)];
    SplicedByte(f.bytes, p, v[0]);
    f.PaddingAfterPut(x, y, v);
    PixelPut(f, ink, x, y, v);
  }

  lemma PixelPut(f: Frame, ink: Ink, x: int, y: int, v: seq<Byte>)
    requires f.Valid() && f.n == 1 && f.In(x, y) && f.Addr(x, y) < |f.bytes|
    requires v == [ApplyOp(ink.op, ink.c, f.At(x, y)[0], ink.bg)]
    requires f.SamePadding(f.(bytes := Spliced(f.bytes, f.Addr(x, y), v)))
    ensures Drawn(f, f.(bytes := Spliced(f.bytes, f.Addr(x, y), v)), ink, Box(x, y, x, y))
  {
    var after := f.(bytes := Spliced(f.bytes, f.Addr(x, y), v));
    forall x', y' | f.In(x', y')
      ensures after.At(x', y')
        == if Box(x, y, x, y).Has(x', y') then [ApplyOp(ink.op, ink.c, f.At(x', y')[0], ink.bg)] else f.At(x', y')
    {
      f.AtAfterPut(x, y, v, x', y');
    }
  }

  // A line one pixel longer
  lemma DrawnFurther(f: Frame, g: Frame, ink: Ink, line: Box, x: int, y: int, p: int, longer: Box)
    requires f.Valid() && f.n == 1 && Drawn(f, g, ink, line) && f.In(x, y) && p == Row(f.pitch, y) + x
    requires (line == Box(longer.x1, y, x - 1, y) && longer.y1 == y) || (line == Box(x, longer.y1, x, y - 1)
        && longer.x1 == x)
    requires longer.x2 == x && longer.y2 == y
    requires longer.x1 <= x && longer.y1 <= y
    ensures 0 <= p < |g.bytes|
    ensures Drawn(f, g.(bytes := g.bytes[p := ApplyOp(ink.op, ink.c, g.bytes[p], ink.bg)]), ink, longer)
  {
    DrawnPixel(g, ink, x, y, p);
    var h := g.(bytes := g.bytes[p := ApplyOp(ink.op, ink.c, g.bytes[p], ink.bg)]);
    DrawnBoth(f, g, h, ink, line, Box(x, y, x, y), longer);
  }

  /** linear8_drawpixel */
  method DrawPixel(psd: Psd, x: int, y: int, ink: Ink)
    requires psd.Valid() && psd.Screen().In(x, y)
    modifies psd.addr
    ensures Drawn(old(psd.Screen()), psd.Screen(), ink, Box(x, y, x, y))
  {
    RowIsProduct(psd.pitch, y);
    var addr := y * psd.pitch + x;
    DrawnPixel(psd.Screen(), ink, x, y, addr);
    psd.addr[addr] := ApplyOp(ink.op, ink.c, psd.addr[addr], ink.bg);
  }

  /** linear8_readpixel */
  method ReadPixel(psd: Psd, x: int, y: int) returns (c: Byte)
    requires psd.Valid() && psd.Screen().In(x, y)
    ensures psd.Screen().At(x, y) == [c]
  {
    RowIsProduct(psd.pitch, y);
    var addr := y * psd.pitch + x;
    psd.Screen().OneByte(x, y);
    c := psd.addr[addr];
  }

  // The pixels an ascending line goes through are on the screen with its ends
  lemma OnScreen(f: Frame, x1: int, y1: int, x2: int, y2: int, x: int, y: int)
    requires f.In(x1, y1) && f.In(x2, y2) && Box(x1, y1, x2, y2).Has(x, y)
    ensures f.In(x, y) && 0 <= x && 0 <= y
  {
  }

  /** linear8_drawhorzline */
  method DrawHorzLine(psd: Psd, x1: int, x2: int, y: int, ink: Ink)
    requires psd.Valid() && psd.Screen().In(x1, y) && psd.Screen().In(x2, y)
    modifies psd.addr
    ensures Drawn(old(psd.Screen()), psd.Screen(), ink, Box(x1, y, x2, y))
  {
    hide Row, ApplyOp, Frame.At, Frame.SamePadding;
    RowIsProduct(psd.pitch, y);
    var addr := y * psd.pitch + x1;
    ghost var f := psd.Screen();
    DrawnNothing(f, ink, Box(x1, y, x1 - 1, y));
    var w := x2 - x1 + 1;
    ghost var x := x1;
    while w > 0
      invariant x + w == x2 + 1 && x1 <= x && addr == Row(psd.pitch, y) + x && (w >= 0 || x == x1)
      invariant Drawn(f, psd.Screen(), ink, Box(x1, y, x - 1, y))
    {
      DrawnFurther(f, psd.Screen(), ink, Box(x1, y, x - 1, y), x, y, addr, Box(x1, y, x, y));
      psd.addr[addr] := ApplyOp(ink.op, ink.c, psd.addr[addr], ink.bg);
      w, addr, x := w - 1, addr + 1, x + 1;
    }
  }

  /** linear8_drawvertline */
  method DrawVertLine(psd: Psd, x: int, y1: int, y2: int, ink: Ink)
    requires psd.Valid() && psd.Screen().In(x, y1) && psd.Screen().In(x, y2)
    modifies psd.addr
    ensures Drawn(old(psd.Screen()), psd.Screen(), ink, Box(x, y1, x, y2))
  {
    hide Row, ApplyOp, Frame.At, Frame.SamePadding;
    RowIsProduct(psd.pitch, y1);
    var addr := y1 * psd.pitch + x;
    ghost var f := psd.Screen();
    DrawnNothing(f, ink, Box(x, y1, x, y1 - 1));
    var h := y2 - y1 + 1;
    ghost var y := y1;
    while h > 0
      invariant y + h == y2 + 1 && y1 <= y && addr == Row(psd.pitch, y) + x && (h >= 0 || y == y1)
      invariant Drawn(f, psd.Screen(), ink, Box(x, y1, x, y - 1))
    {
      DrawnFurther(f, psd.Screen(), ink, Box(x, y1, x, y - 1), x, y, addr, Box(x, y1, x, y));
      psd.addr[addr] := ApplyOp(ink.op, ink.c, psd.addr[addr], ink.bg);
      NextRow(psd.pitch, y);
      h, addr, y := h - 1, addr + psd.pitch, y + 1;
    }
  }

  /** Bits f to t of a byte of a bitmap, one pixel each. */
  method DrawBits(out: array<Byte>, d: nat, byte: Byte, f: nat, t: nat, pen: Pen<Byte>)
    requires f <= t <= 8 && d + t - f <= out.Length
    modifies out
    ensures out[..] == Stroke(old(out[..]), d, byte[f..t], pen)
  {
    hide Stroke, Pen.On;
    ghost var before := out[..];
    var dst, mask := d, f;
    StrokeEmpty(before, d, byte[f..f], pen);
    while mask < t
      invariant f <= mask <= t && dst == d + mask - f
      invariant out[..] == Stroke(before, d, byte[f..mask], pen)
    {
      StrokeBit(before, d, byte[f..mask], byte[mask], pen);
      SliceNext(byte, f, mask);
      if byte[mask] {
        out[dst] := pen.fg;
      } else if pen.usebg {
        out[dst] := pen.bg;
      }
      dst, mask := dst + 1, mask + 1;
    }
  }

  /** One row of linear8_convblit_copy_mask_mono_byte_msb. */
  method DrawRow(out: array<Byte>, d: nat, data: array<Byte>, s: nat, split: Split, pen: Pen<Byte>, ghost base: nat,
                 ghost srcx: nat, ghost width: nat)
    returns (dst: nat, src: nat)
    requires data != out && split == SplitOf(srcx, width) && s == base + srcx / 8
    requires base + (srcx + width + 7) / 8 <= data.Length && d + width <= out.Length
    modifies out
    ensures dst == d + width && src == s + (srcx + width - 1) / 8 - srcx / 8 + 1
    ensures out[..] == Stroke(old(out[..]), d, RowBits(data[..], base, srcx, width), pen)
  {
    hide *;
    ghost var before, bytes, bits := out[..], data[..], RowBits(data[..], base, srcx, width);
    ghost var n := 0;
    SplitCovers(srcx, width, split);
    StrokeNothing(before, d, bytes, base, srcx, width, bits, pen);
    dst, src := d, s;
    if split.prefix < 8 {
      PieceDrawn(before, out[..], d, bytes, base, srcx, width, src - s, split.prefix, 8, n, pen);
      DrawBits(out, dst, data[src], split.prefix, 8, pen);
      n := 8 - split.prefix;
      dst, src := dst + 8 - split.prefix, src + 1;
    }
    DrawWhole(out, dst, data, src, split.sizeMain, pen, before, d, base, srcx, width, n);
    n := n + 8 * split.sizeMain;
    dst, src := dst + 8 * split.sizeMain, src + split.sizeMain;
    if split.postfixLast < 8 {
      PieceDrawn(before, out[..], d, bytes, base, srcx, width, src - s, split.postfixFirst, split.postfixLast + 1, n,
          pen);
      DrawBits(out, dst, data[src], split.postfixFirst, split.postfixLast + 1, pen);
      n := n + split.postfixLast + 1 - split.postfixFirst;
      dst, src := dst + split.postfixLast + 1 - split.postfixFirst, src + 1;
    }
  }

  // The loop over the whole bytes of a row
  method DrawWhole(out: array<Byte>, d0: nat, data: array<Byte>, s0: nat, sizeMain: nat, pen: Pen<Byte>,
                   ghost before: seq<Byte>, ghost d: nat, ghost base: nat, ghost srcx: nat, ghost width: nat,
                   ghost n0: nat)
    requires data != out && base + (srcx + width + 7) / 8 <= data.Length && d + width <= |before| == out.Length
    requires d0 == d + n0 && n0 + 8 * sizeMain <= width && s0 >= base + srcx / 8
    requires sizeMain > 0 ==> 8 * (s0 - base - srcx / 8) == srcx % 8 + n0
    requires n0 <= |RowBits(data[..], base, srcx, width)| == width
    requires out[..] == Stroke(before, d, RowBits(data[..], base, srcx, width)[..n0], pen)
    modifies out
    ensures out[..] == Stroke(before, d, RowBits(data[..], base, srcx, width)[..n0 + 8 * sizeMain], pen)
  {
    hide *;
    ghost var bytes, bits, n := data[..], RowBits(data[..], base, srcx, width), n0;
    var dst, src, t := d0, s0, sizeMain;
    while t != 0
      invariant 0 <= t <= sizeMain && n == n0 + 8 * (sizeMain - t) && dst == d + n && src == s0 + sizeMain - t
      invariant data[..] == bytes && out[..] == Stroke(before, d, bits[..n], pen)
    {
      PieceDrawn(before, out[..], d, bytes, base, srcx, width, src - base - srcx / 8, 0, 8, n, pen);
      DrawBits(out, dst, data[src], 0, 8, pen);
      n := n + 8;
      dst, src, t := dst + 8, src + 1, t - 1;
    }
  }

  // Each pixel under a set bit of the bitmap has become the foreground, each under a clear one the background or
  // nothing; nothing else has changed
  ghost predicate GlyphDrawn(before: Frame, after: Frame, b: Bitmap, pen: Pen<Byte>, dstx: nat, dsty: nat)
    requires before.Valid() && before.n == 1 && b.Fits()
  {
    && before.SamePadding(after)
    && forall x, y | before.In(x, y) ::
         after.At(x, y) == if dstx <= x < dstx + b.width && dsty <= y < dsty + b.height
           then [pen.On(b.Bit(x - dstx, y - dsty), before.At(x, y)[0])] else before.At(x, y)
  }

  // The drawing area is inside the frame
  ghost predicate Clipped(f: Frame, b: Bitmap, dstx: nat, dsty: nat) {
    f.Valid() && f.n == 1 && b.Fits() && dstx + b.width <= f.cols && dsty + b.height <= f.rows
  }

  lemma ClippedFits(f: Frame, b: Bitmap, dstx: nat, dsty: nat)
    requires Clipped(f, b, dstx, dsty)
    ensures b.Fits() && f.cols <= f.pitch && (b.height > 0
        ==> Row(f.pitch, dsty + b.height - 1) + dstx + b.width <= |f.bytes|)
    ensures RowsFit(|f.bytes|, Row(f.pitch, dsty) + dstx, f.pitch, b.Lines())
  {
    RowIsProduct(1, f.cols);
    if b.height > 0 {
      RowMonotone(f.pitch, dsty + b.height - 1, f.rows);
      RowSum(f.pitch, dsty, b.height - 1);
    }
    LinesFit(|f.bytes|, Row(f.pitch, dsty) + dstx, f.pitch, b.Lines(), b.width);
  }

  lemma GlyphPixel(f: Frame, after: Frame, b: Bitmap, pen: Pen<Byte>, dstx: nat, dsty: nat, x: int, y: int)
    requires Clipped(f, b, dstx, dsty) && f.In(x, y)
    requires RowsFit(|f.bytes|, Row(f.pitch, dsty) + dstx, f.pitch, b.Lines())
    requires after == f.(bytes := Strokes(f.bytes, Row(f.pitch, dsty) + dstx, f.pitch, b.Lines(), pen))
    ensures after.At(x, y) == if dstx <= x < dstx + b.width && dsty <= y < dsty + b.height
      then [pen.On(b.Bit(x - dstx, y - dsty), f.At(x, y)[0])] else f.At(x, y)
  {
    hide Strokes, RowsFit, Row, Bitmap.Bit, Bitmap.Lines, Pen.On;
    ClippedFits(f, b, dstx, dsty);
    f.OneByte(x, y);
    after.OneByte(x, y);
    StrokesOn(f.bytes, f.pitch, b, pen, dstx, dsty, x, y);
  }

  lemma GlyphPadding(f: Frame, after: Frame, b: Bitmap, pen: Pen<Byte>, dstx: nat, dsty: nat)
    requires Clipped(f, b, dstx, dsty)
    requires RowsFit(|f.bytes|, Row(f.pitch, dsty) + dstx, f.pitch, b.Lines())
    requires after == f.(bytes := Strokes(f.bytes, Row(f.pitch, dsty) + dstx, f.pitch, b.Lines(), pen))
    ensures f.SamePadding(after)
  {
    hide Strokes, RowsFit, Row, Bitmap.Bit, Bitmap.Lines, Pen.On;
    ClippedFits(f, b, dstx, dsty);
    RowIsProduct(1, f.cols);
    forall y: nat, c: nat {:trigger f.Offset(y, c)}
      | y < f.rows && Row(f.n, f.cols) <= c < f.pitch && f.Offset(y, c) < |f.bytes|
      ensures after.bytes[f.Offset(y, c)] == f.bytes[f.Offset(y, c)]
    {
      StrokesOn(f.bytes, f.pitch, b, pen, dstx, dsty, c, y);
    }
    forall q | Row(f.pitch, f.rows) <= q < |f.bytes| ensures after.bytes[q] == f.bytes[q] {
      StrokesAfter(f.bytes, f.pitch, b, pen, dstx, dsty, f.rows, q);
    }
  }

  lemma StrokesAreGlyph(f: Frame, after: Frame, b: Bitmap, pen: Pen<Byte>, dstx: nat, dsty: nat)
    requires Clipped(f, b, dstx, dsty)
    requires RowsFit(|f.bytes|, Row(f.pitch, dsty) + dstx, f.pitch, b.Lines())
    requires after == f.(bytes := Strokes(f.bytes, Row(f.pitch, dsty) + dstx, f.pitch, b.Lines(), pen))
    ensures GlyphDrawn(f, after, b, pen, dstx, dsty)
  {
    GlyphPadding(f, after, b, pen, dstx, dsty);
    forall x, y | f.In(x, y)
      ensures after.At(x, y) == if dstx <= x < dstx + b.width && dsty <= y < dsty + b.height
        then [pen.On(b.Bit(x - dstx, y - dsty), f.At(x, y)[0])] else f.At(x, y)
    {
      GlyphPixel(f, after, b, pen, dstx, dsty, x, y);
    }
  }

  /** linear8_convblit_copy_mask_mono_byte_msb, for a frame of xres x yres pixels in `out` */
  method CopyMaskMonoByteMSB(gc: GlyphParms, data: array<Byte>, out: array<Byte>, ghost xres: nat, ghost yres: nat)
    requires data != out
    requires Clipped(Frame(gc.dstPitch, 1, xres, yres, out[..]), gc.Source(data[..]), gc.dstx, gc.dsty)
    modifies out
    ensures GlyphDrawn(Frame(gc.dstPitch, 1, xres, yres, old(out[..])), Frame(gc.dstPitch, 1, xres, yres, out[..]),
                       gc.Source(data[..]), Pen(gc.fg, gc.bg, gc.usebg), gc.dstx, gc.dsty)
  {
    hide Row, Strokes, Stroke, RowsFit, RowBits, SplitOf, Remaining, Bitmap.Fits, Bitmap.Lines, Clipped, GlyphDrawn;
    ghost var b, f := gc.Source(data[..]), Frame(gc.dstPitch, 1, xres, yres, out[..]);
    ClippedFits(f, b, gc.dstx, gc.dsty);
    ghost var lines := b.Lines();
    var pen := Pen(gc.fg, gc.bg, gc.usebg);
    var split := SplitOf(gc.srcx, gc.width);
    var firstByte, lastByte := gc.srcx / 8, (gc.srcx + gc.width - 1) / 8;
    var src: int := gc.srcPitch * gc.srcy + firstByte;
    var dst: int := gc.dstPitch * gc.dsty + gc.dstx;
    var advanceSrc := gc.srcPitch - lastByte + firstByte - 1;
    var advanceDst := gc.dstPitch - gc.width;
    FirstByte(gc.srcPitch, gc.srcy, firstByte);
    FirstByte(gc.dstPitch, gc.dsty, gc.dstx);
    ghost var d0 := dst;
    RemainingAll(f.bytes, d0, f.pitch, lines, pen);
    var y := 0;
    while y < gc.height
      invariant 0 <= y <= gc.height && data[..] == b.data
      invariant src == Row(gc.srcPitch, gc.srcy + y) + firstByte
      invariant Remaining(f.bytes, out[..], d0, dst, f.pitch, lines, y, pen)
    {
      b.LineIs(y, Row(gc.srcPitch, gc.srcy + y));
      RemainingRow(f.bytes, out[..], d0, dst, f.pitch, lines, y, pen);
      dst, src := DrawRow(out, dst, data, src, split, pen, Row(gc.srcPitch, gc.srcy + y), gc.srcx, gc.width);
      src, dst, y := src + advanceSrc, dst + advanceDst, y + 1;
    }
    RemainingNone(f.bytes, out[..], d0, dst, f.pitch, lines, pen);
    StrokesAreGlyph(f, f.(bytes := out[..]), b, pen, gc.dstx, gc.dsty);
  }
}
