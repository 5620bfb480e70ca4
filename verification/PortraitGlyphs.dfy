/** One-bit bitmaps drawn through the portrait subdrivers: the bitmap is turned, and the turned one is drawn. */
module PortraitGlyphs {
  import opened Bits
  import opened BitRows
  import opened Rows
  import opened Frames
  import opened Screens
  import opened Glyphs
  import Linear8

  // The size of a turned width x height bitmap
  function OutW(m: Mode, width: nat, height: nat): nat { if m.Sideways() then height else width }
  function OutH(m: Mode, width: nat, height: nat): nat { if m.Sideways() then width else height }

  // The bytes of a row of it
  function OutPitch(m: Mode, width: nat, height: nat): nat { if m.Sideways() then (height + 7) / 8 else width }

  // Where bit (x, y) goes: rotate_left_1bpp, rotate_right_1bpp, rotate_down_1bpp
  function OutX(m: Mode, width: nat, height: nat, x: int, y: int): int {
    match m case Upright => x case Left => y case Right => (height - 1) - y case Down => (width - 1) - x
  }

  function OutY(m: Mode, width: nat, height: nat, x: int, y: int): int {
    match m case Upright => y case Left => (width - 1) - x case Right => x case Down => (height - 1) - y
  }

  lemma OutIn(m: Mode, width: nat, height: nat, x: nat, y: nat)
    requires x < width && y < height
    ensures 0 <= OutX(m, width, height, x, y) < OutW(m, width, height)
        && 0 <= OutY(m, width, height, x, y) < OutH(m, width, height)
    ensures (OutW(m, width, height) + 7) / 8 <= OutPitch(m, width, height)
  {
  }

  lemma OutInjective(m: Mode, width: nat, height: nat, x: int, y: int, x': int, y': int)
    ensures OutX(m, width, height, x, y) == OutX(m, width, height, x', y')
        && OutY(m, width, height, x, y) == OutY(m, width, height, x', y')
      <==> x == x' && y == y'
  {
  }

  // The turned bitmap as far as the rows before y and the first x bits of row y
  ghost predicate Turned(m: Mode, b: Bitmap, data: seq<Byte>, x: nat, y: nat)
    requires b.Fits()
  {
    && Row(OutPitch(m, b.width, b.height), OutH(m, b.width, b.height)) <= |data|
    && forall i: nat, j: nat {:trigger TurnedBit(m, b, data, x, y, i, j)} | i < b.width && j < b.height ::
         TurnedBit(m, b, data, x, y, i, j)
  }

  ghost predicate TurnedBit(m: Mode, b: Bitmap, data: seq<Byte>, x: nat, y: nat, i: nat, j: nat)
    requires b.Fits() && i < b.width && j < b.height
        && Row(OutPitch(m, b.width, b.height), OutH(m, b.width, b.height)) <= |data|
  {
    OutIn(m, b.width, b.height, i, j);
    BitIndex(|data|, OutPitch(m, b.width, b.height), OutH(m, b.width, b.height), OutX(m, b.width, b.height, i, j),
        OutY(m, b.width, b.height, i, j));
    BitAt(data, OutPitch(m, b.width, b.height), OutX(m, b.width, b.height, i, j), OutY(m, b.width, b.height, i, j))
      == ((j < y || (j == y && i < x)) && b.Bit(i, j))
  }

  lemma PlaceIn(m: Mode, b: Bitmap, size: nat, x: nat, y: nat, p: int)
    requires Row(OutPitch(m, b.width, b.height), OutH(m, b.width, b.height)) <= size && x < b.width && y < b.height
    requires p == OutY(m, b.width, b.height, x, y) * OutPitch(m, b.width, b.height)
      + OutX(m, b.width, b.height, x, y) / 8
    ensures OutX(m, b.width, b.height, x, y) >= 0 && OutY(m, b.width, b.height, x, y) >= 0
    ensures p == Row(OutPitch(m, b.width, b.height), OutY(m, b.width, b.height, x, y))
      + OutX(m, b.width, b.height, x, y) / 8
    ensures 0 <= p < size
  {
    var pitch, ox, oy := OutPitch(m, b.width, b.height), OutX(m, b.width, b.height, x, y),
        OutY(m, b.width, b.height, x, y);
    OutIn(m, b.width, b.height, x, y);
    RowIsProduct(pitch, oy);
    BitIndex(size, pitch, OutH(m, b.width, b.height), ox, oy);
  }

  // The bit that the inner loop tests
  lemma InBit(b: Bitmap, pixelIn: nat, x: nat, y: nat, p: int)
    requires b.Fits() && x < b.width && y < b.height && b.srcx % 8 == 0 && pixelIn == Row(b.pitch, b.srcy) + b.srcx / 8
    requires p == pixelIn + y * b.pitch + x / 8
    ensures 0 <= p < |b.data| && b.data[p][x % 8] == b.Bit(x, y)
  {
    b.RowFits(y);
    RowIsProduct(b.pitch, y);
    RowSum(b.pitch, b.srcy, y);
  }

  lemma TurnedNext(m: Mode, b: Bitmap, data: seq<Byte>, x: nat, y: nat, p: int, after: seq<Byte>)
    requires b.Fits() && Turned(m, b, data, x, y) && x < b.width && y < b.height
    requires OutX(m, b.width, b.height, x, y) >= 0 && OutY(m, b.width, b.height, x, y) >= 0
    requires p == Row(OutPitch(m, b.width, b.height), OutY(m, b.width, b.height, x, y))
      + OutX(m, b.width, b.height, x, y) / 8 < |data|
    requires after == if b.Bit(x, y) then data[p := WithBit(data[p], OutX(m, b.width, b.height, x, y) % 8)] else data
    ensures Turned(m, b, after, x + 1, y)
  {
    hide Row, OutX, OutY, OutW, OutH, OutPitch, BitAt, WithBit, Bitmap.Fits, Bitmap.Bit;
    var x' := x + 1;
    forall i: nat, j: nat {:trigger TurnedBit(m, b, after, x', y, i, j)} | i < b.width && j < b.height
      ensures TurnedBit(m, b, after, x', y, i, j)
    {
      assert TurnedBit(m, b, data, x, y, i, j);
      OutIn(m, b.width, b.height, i, j);
      OutIn(m, b.width, b.height, x, y);
      OutInjective(m, b.width, b.height, x, y, i, j);
      BitAfterSet(data, OutPitch(m, b.width, b.height), OutH(m, b.width, b.height), OutX(m, b.width, b.height, x, y),
          OutY(m, b.width, b.height, x, y), OutX(m, b.width, b.height, i, j), OutY(m, b.width, b.height, i, j));
    }
  }

  lemma TurnedStart(m: Mode, b: Bitmap, data: seq<Byte>)
    requires b.Fits() && |data| == Row(OutPitch(m, b.width, b.height), OutH(m, b.width, b.height))
    requires forall p | 0 <= p < |data| :: data[p] == Fill(8, false)
    ensures Turned(m, b, data, 0, 0)
  {
    forall i: nat, j: nat {:trigger TurnedBit(m, b, data, 0, 0, i, j)} | i < b.width && j < b.height
      ensures TurnedBit(m, b, data, 0, 0, i, j)
    {
      OutIn(m, b.width, b.height, i, j);
      BitIndex(|data|, OutPitch(m, b.width, b.height), OutH(m, b.width, b.height), OutX(m, b.width, b.height, i, j),
          OutY(m, b.width, b.height, i, j));
    }
  }

  lemma TurnedRow(m: Mode, b: Bitmap, data: seq<Byte>, y: nat)
    requires b.Fits() && Turned(m, b, data, b.width, y)
    ensures Turned(m, b, data, 0, y + 1)
  {
    var y' := y + 1;
    forall i: nat, j: nat {:trigger TurnedBit(m, b, data, 0, y', i, j)} | i < b.width && j < b.height
      ensures TurnedBit(m, b, data, 0, y', i, j)
    {
      assert TurnedBit(m, b, data, b.width, y, i, j);
    }
  }

  // The bitmap of bytes that the inner driver gets
  function OutBitmap(m: Mode, b: Bitmap, data: seq<Byte>): Bitmap {
    Bitmap(data, OutPitch(m, b.width, b.height), 0, 0, OutW(m, b.width, b.height), OutH(m, b.width, b.height))
  }

  lemma OutFits(m: Mode, b: Bitmap, data: seq<Byte>)
    requires Row(OutPitch(m, b.width, b.height), OutH(m, b.width, b.height)) <= |data|
    ensures OutBitmap(m, b, data).Fits()
  {
  }

  // Bit (x, y) has gone to its place
  lemma OutBit(m: Mode, b: Bitmap, data: seq<Byte>, i: nat, j: nat)
    requires b.Fits() && Turned(m, b, data, 0, b.height) && OutBitmap(m, b, data).Fits() && i < b.width && j < b.height
    ensures 0 <= OutX(m, b.width, b.height, i, j) < OutW(m, b.width, b.height)
    ensures 0 <= OutY(m, b.width, b.height, i, j) < OutH(m, b.width, b.height)
    ensures OutBitmap(m, b, data).Bit(OutX(m, b.width, b.height, i, j), OutY(m, b.width, b.height, i, j)) == b.Bit(i, j)
  {
    OutIn(m, b.width, b.height, i, j);
    assert TurnedBit(m, b, data, 0, b.height, i, j);
  }

  /** The turning loops. */
  method Turn(m: Mode, ghost b: Bitmap, data: array<Byte>, pixelIn: nat, srcPitch: nat, inW: nat, inH: nat)
    returns (pixelOut: array<Byte>)
    requires b.Fits() && data[..] == b.data && srcPitch == b.pitch && inW == b.width && inH == b.height
    requires b.srcx % 8 == 0 && pixelIn == Row(b.pitch, b.srcy) + b.srcx / 8
    ensures fresh(pixelOut) && Turned(m, b, pixelOut[..], 0, b.height)
  {
    hide Row, OutX, OutY, OutW, Turned, TurnedBit, BitAt, WithBit, Bitmap.Fits, Bitmap.Bit;
    var outPitch, outH := OutPitch(m, inW, inH), OutH(m, inW, inH);
    RowIsProduct(outPitch, outH);
    pixelOut := new Byte[outH * outPitch](_ => Fill(8, false));
    TurnedStart(m, b, pixelOut[..]);
    var inY := 0;
    while inY < inH
      invariant 0 <= inY <= inH && fresh(pixelOut) && Turned(m, b, pixelOut[..], 0, inY) && data[..] == b.data
    {
      var inX := 0;
      while inX < inW
        invariant 0 <= inX <= inW && fresh(pixelOut) && Turned(m, b, pixelOut[..], inX, inY) && data[..] == b.data
      {
        var outX, outY := OutX(m, inW, inH, inX, inY), OutY(m, inW, inH, inX, inY);
        var p, q := outY * outPitch + outX / 8, pixelIn + inY * srcPitch + inX / 8;
        ghost var before := pixelOut[..];
        InBit(b, pixelIn, inX, inY, q);
        PlaceIn(m, b, pixelOut.Length, inX, inY, p);
        if data[q][inX % 8] {
          pixelOut[p] := WithBit(pixelOut[p], outX % 8);
        }
        TurnedNext(m, b, before, inX, inY, p, pixelOut[..]);
        inX := inX + 1;
      }
      TurnedRow(m, b, pixelOut[..], inY);
      inY := inY + 1;
    }
  }

  // The rectangle of the screen that the turned bitmap covers
  function OutDstX(v: View, gc: GlyphParms): int {
    match v.mode
    case Upright => gc.dstx case Left => gc.dsty
    case Right => v.yv - gc.dsty - gc.height case Down => v.xv - gc.dstx - gc.width
  }

  function OutDstY(v: View, gc: GlyphParms): int {
    match v.mode
    case Upright => gc.dsty case Left => v.xv - gc.dstx - gc.width
    case Right => gc.dstx case Down => v.yv - gc.dsty - gc.height
  }

  // The bitmap that is drawn: the turning loops take srcx for a number of bytes
  function Source(v: View, gc: GlyphParms, data: seq<Byte>): Bitmap {
    if v.mode.Upright? then gc.Source(data) else gc.Source(data).(srcx := 8 * gc.srcx)
  }

  // So the bitmap that was asked for is drawn, whatever it holds, just if the mode is upright or srcx is zero
  lemma SourceAsAsked(v: View, gc: GlyphParms, n: nat)
    requires gc.width > 0 && gc.height > 0
    requires forall data: seq<Byte> | |data| == n :: Source(v, gc, data).Fits() && gc.Source(data).Fits()
    ensures v.mode.Upright? || gc.srcx == 0 <==>
      forall data: seq<Byte> | |data| == n :: SameBits(Source(v, gc, data), gc.Source(data))
  {
    hide Row;
    if !v.mode.Upright? && gc.srcx != 0 {
      var p := Row(gc.srcPitch, gc.srcy) + gc.srcx / 8;
      var data := seq(n, q => seq(8, b => q == p && b == gc.srcx % 8));
      gc.Source(data).RowFits(0);
      Source(v, gc, data).RowFits(0);
      assert gc.Source(data).Bit(0, 0) && !Source(v, gc, data).Bit(0, 0);
      assert !SameBits(Source(v, gc, data), gc.Source(data));
    }
  }

  // Both bitmaps draw the same
  ghost predicate SameBits(a: Bitmap, b: Bitmap)
    requires a.Fits() && b.Fits() && a.width == b.width && a.height == b.height
  {
    forall i: nat, j: nat | i < a.width && j < a.height :: a.Bit(i, j) == b.Bit(i, j)
  }

  // The right one of two pixels, as clipping asks for it: the first bit of the next byte is drawn
  lemma OtherBitDrawn(v: View)
    requires !v.mode.Upright?
    ensures var gc := GlyphParms(1, 1, 1, 0, 1, 0, 2, 1, Fill(8, true), Fill(8, false), true);
      var data := [[false, true, false, false, false, false, false, false], Fill(8, false)];
      && gc.Source(data).Fits() && gc.Source(data).Bit(0, 0)
      && Source(v, gc, data).Fits() && !Source(v, gc, data).Bit(0, 0)
  {
    assert Row(2, 0) == 0;
  }

  // Each virtual pixel under a set bit has become the foreground, each under a clear one the background or nothing;
  // nothing else has changed
  ghost predicate GlyphSeen(v: View, before: Frame, after: Frame, b: Bitmap, pen: Pen<Byte>, dstx: nat, dsty: nat)
    requires before.Valid() && before.n == 1 && v.Of(before) && b.Fits()
  {
    && before.SamePadding(after)
    && forall x, y | v.On(x, y) ::
         v.Seen(after, x, y) == if dstx <= x < dstx + b.width && dsty <= y < dsty + b.height
           then [pen.On(b.Bit(x - dstx, y - dsty), v.Seen(before, x, y)[0])] else v.Seen(before, x, y)
  }

  // A virtual pixel is in the virtual rectangle just if the physical one is in the turned rectangle, at the turned
  // place
  lemma OutRect(v: View, gc: GlyphParms, x: int, y: int)
    ensures var px, py, dx, dy := v.X(x, y), v.Y(x, y), OutDstX(v, gc), OutDstY(v, gc);
      && (gc.dstx <= x < gc.dstx + gc.width && gc.dsty <= y < gc.dsty + gc.height
          <==> dx <= px < dx + OutW(v.mode, gc.width, gc.height) && dy <= py < dy + OutH(v.mode, gc.width, gc.height))
      && px - dx == OutX(v.mode, gc.width, gc.height, x - gc.dstx, y - gc.dsty)
      && py - dy == OutY(v.mode, gc.width, gc.height, x - gc.dstx, y - gc.dsty)
  {
  }

  // Drawing the turned bitmap on the physical screen is drawing the bitmap on the virtual one
  lemma TurnedGlyph(v: View, gc: GlyphParms, f: Frame, after: Frame, b: Bitmap, data: seq<Byte>)
    requires f.Valid() && f.n == 1 && v.Of(f) && b.Fits() && b.width == gc.width && b.height == gc.height
    requires Turned(v.mode, b, data, 0, b.height) && OutBitmap(v.mode, b, data).Fits()
    requires OutDstX(v, gc) >= 0 && OutDstY(v, gc) >= 0
    requires Linear8.GlyphDrawn(f, after, OutBitmap(v.mode, b, data), Pen(gc.fg, gc.bg, gc.usebg), OutDstX(v, gc),
                                OutDstY(v, gc))
    ensures GlyphSeen(v, f, after, b, Pen(gc.fg, gc.bg, gc.usebg), gc.dstx, gc.dsty)
  {
    forall x, y | v.On(x, y)
      ensures v.Seen(after, x, y) == if gc.dstx <= x < gc.dstx + b.width && gc.dsty <= y < gc.dsty + b.height
        then [Pen(gc.fg, gc.bg, gc.usebg).On(b.Bit(x - gc.dstx, y - gc.dsty), v.Seen(f, x, y)[0])] else v.Seen(f, x, y)
    {
      TurnedPixel(v, gc, f, after, b, data, x, y);
    }
  }

  lemma TurnedPixel(v: View, gc: GlyphParms, f: Frame, after: Frame, b: Bitmap, data: seq<Byte>, x: int, y: int)
    requires f.Valid() && f.n == 1 && v.Of(f) && b.Fits() && b.width == gc.width && b.height == gc.height && v.On(x, y)
    requires Turned(v.mode, b, data, 0, b.height) && OutBitmap(v.mode, b, data).Fits()
    requires OutDstX(v, gc) >= 0 && OutDstY(v, gc) >= 0
    requires Linear8.GlyphDrawn(f, after, OutBitmap(v.mode, b, data), Pen(gc.fg, gc.bg, gc.usebg), OutDstX(v, gc),
                                OutDstY(v, gc))
    ensures v.Seen(after, x, y) == if gc.dstx <= x < gc.dstx + b.width && gc.dsty <= y < gc.dsty + b.height
      then [Pen(gc.fg, gc.bg, gc.usebg).On(b.Bit(x - gc.dstx, y - gc.dsty), v.Seen(f, x, y)[0])] else v.Seen(f, x, y)
  {
    hide Row, OutX, OutY, OutW, OutH, OutPitch, OutDstX, OutDstY, View.X, View.Y, Turned, Bitmap.Fits, Bitmap.Bit,
        Frame.At,
        Frame.Addr;
    v.OnFrame(f, x, y);
    OutRect(v, gc, x, y);
    if gc.dstx <= x < gc.dstx + b.width && gc.dsty <= y < gc.dsty + b.height {
      OutBit(v.mode, b, data, x - gc.dstx, y - gc.dsty);
    }
  }

  /** fbportrait_*_convblit_copy_mask_mono_byte_msb; on an upright screen, the driver's own */
  method CopyMaskMonoByteMSB(psd: Psd, gc: GlyphParms, data: array<Byte>, out: array<Byte>)
    requires psd.Turned() && data != out
    requires Frame(gc.dstPitch, 1, psd.xres, psd.yres, out[..]).Valid() && Source(psd.Virtual(), gc, data[..]).Fits()
    requires gc.dstx + gc.width <= psd.xvirtres && gc.dsty + gc.height <= psd.yvirtres
    modifies out
    ensures GlyphSeen(psd.Virtual(), Frame(gc.dstPitch, 1, psd.xres, psd.yres, old(out[..])),
        Frame(gc.dstPitch, 1, psd.xres, psd.yres, out[..]),
                      Source(psd.Virtual(), gc, data[..]), Pen(gc.fg, gc.bg, gc.usebg), gc.dstx, gc.dsty)
  {
    hide Row, TurnedBit, OutX, OutY, Bitmap.Bit, Frame.At;
    var m := psd.portrait;
    ghost var v, f, b := psd.Virtual(), Frame(gc.dstPitch, 1, psd.xres, psd.yres, out[..]),
        Source(psd.Virtual(), gc, data[..]);
    if m.Upright? {
      Linear8.CopyMaskMonoByteMSB(gc, data, out, psd.xres, psd.yres);
    } else {
      var pixelIn := gc.srcPitch * gc.srcy + gc.srcx;
      RowIsProduct(gc.srcPitch, gc.srcy);
      var pixelOut := Turn(m, b, data, pixelIn, gc.srcPitch, gc.width, gc.height);
      var inner := gc.(width := OutW(m, gc.width, gc.height), height := OutH(m, gc.width, gc.height), srcx := 0,
          srcy := 0, dstx := OutDstX(psd.Virtual(), gc), dsty := OutDstY(psd.Virtual(), gc),
          srcPitch := OutPitch(m, gc.width, gc.height));
      OutFits(m, b, pixelOut[..]);
      Linear8.CopyMaskMonoByteMSB(inner, pixelOut, out, psd.xres, psd.yres);
      TurnedGlyph(v, gc, f, f.(bytes := out[..]), b, pixelOut[..]);
    }
  }
}
