/** The four bit planes of the PC-98 (vgaplan4_pc98.c), which are plain memory: pixels and lines. */
module Planes {
  import opened Bits
  import opened Screens
  import Linear4

  type Nibble = Linear4.Nibble

  const BYTESPERLINE: nat := 80

  // screenbase_table: segments 0xa800, 0xb800, 0xb000 and 0xe000
  const SCREENBASE: seq<nat> := [0xa8000, 0xb8000, 0xb0000, 0xe0000]

  // The pixels whose bytes lie inside the 32 KB of a plane
  predicate On(x: int, y: int) { 0 <= x < 8 * BYTESPERLINE && 0 <= y && (y + 1) * BYTESPERLINE <= 0x8000 }

  predicate Plane(p: int) { 0 <= p < 4 }

  // The memory reaches as far as the last plane
  predicate Mapped(size: nat) { size >= 0xe8000 }

  // The byte that holds a plane's bit of pixel (x, y)
  function Spot(p: nat, x: int, y: int): (q: nat)
    requires Plane(p) && On(x, y)
    ensures SCREENBASE[p] <= q < SCREENBASE[p] + 0x8000 <= 0xe8000
  {
    SCREENBASE[p] + x / 8 + y * BYTESPERLINE
  }

  // Planes, lines and groups of eight pixels do not share bytes
  lemma SpotApart(p: nat, x: int, y: int, p': nat, x': int, y': int)
    requires Plane(p) && On(x, y) && Plane(p') && On(x', y')
    ensures Spot(p, x, y) == Spot(p', x', y') <==> p == p' && x / 8 == x' / 8 && y == y'
  {
  }

  function Bit(mem: seq<Byte>, p: nat, x: int, y: int): bool
    requires Mapped(|mem|) && Plane(p) && On(x, y)
  {
    mem[Spot(p, x, y)][x % 8]
  }

  // The colour of a pixel: plane 3 has its most significant bit
  function Pixel(mem: seq<Byte>, x: int, y: int): Nibble
    requires Mapped(|mem|) && On(x, y)
  {
    [Bit(mem, 3, x, y), Bit(mem, 2, x, y), Bit(mem, 1, x, y), Bit(mem, 0, x, y)]
  }

  // mask[k]
  function Mask(k: nat): Byte
    requires k < 8
  {
    Shr([true, false, false, false, false, false, false, false], k)
  }

  // ORBYTE_FP with the mask, or ANDBYTE_FP with its complement
  function Put(b: Byte, k: nat, v: bool): Byte
    requires k < 8
  {
    if v then Or(b, Mask(k)) else And(b, Not(Mask(k)))
  }

  lemma PutAt(b: Byte, k: nat, v: bool, n: nat)
    requires k < 8 && n < 8
    ensures Put(b, k, v)[n] == if n == k then v else b[n]
  {
  }

  // Bytes that belong to no pixel have not changed
  ghost predicate SameElsewhere(before: seq<Byte>, after: seq<Byte>) {
    && |after| == |before|
    && forall q | 0 <= q < |before| && (forall p | Plane(p) ::
         q < SCREENBASE[p] || q >= SCREENBASE[p] + 409 * BYTESPERLINE) ::
         after[q] == before[q]
  }

  lemma BitAfterPut(mem: seq<Byte>, p: nat, x: int, y: int, v: bool, p': nat, x': int, y': int)
    requires Mapped(|mem|) && Plane(p) && On(x, y) && Plane(p') && On(x', y')
    ensures Bit(mem[Spot(p, x, y) := Put(mem[Spot(p, x, y)], x % 8, v)], p', x', y')
      == if p' == p && x' == x && y' == y then v else Bit(mem, p', x', y')
  {
    hide Put, Spot;
    SpotApart(p, x, y, p', x', y');
    PutAt(mem[Spot(p, x, y)], x % 8, v, x' % 8);
  }

  lemma ElsewhereAfterPut(before: seq<Byte>, now: seq<Byte>, p: nat, x: int, y: int, b: Byte)
    requires Mapped(|before|) && SameElsewhere(before, now) && Plane(p) && On(x, y)
    ensures SameElsewhere(before, now[Spot(p, x, y) := b])
  {
  }

  // The bit of colour c that plane p holds
  function Share(c: Nibble, p: nat): bool
    requires p < 4
  {
    c[3 - p]
  }

  /** A colour, and whether it is drawn in XOR mode. */
  datatype Ink = Ink(c: Nibble, xor: bool) {

    // What a bit of plane p becomes
    function Bit(p: nat, old': bool): bool
      requires p < 4
    {
      if xor then old' != Share(c, p) else Share(c, p)
    }
  }

  // What the drawing routines do to one bit of a byte, and to all of them
  function Inked(b: Byte, k: nat, ink: Ink, p: nat): Byte
    requires k < 8 && p < 4
  {
    if ink.xor then if Share(ink.c, p) then Xor(b, Mask(k)) else b else Put(b, k, Share(ink.c, p))
  }

  function AllInked(b: Byte, ink: Ink, p: nat): Byte
    requires p < 4
  {
    if ink.xor then if Share(ink.c, p) then Not(b) else b else Fill(8, Share(ink.c, p))
  }

  lemma InkedIsPut(b: Byte, k: nat, ink: Ink, p: nat)
    requires k < 8 && p < 4
    ensures Inked(b, k, ink, p) == Put(b, k, ink.Bit(p, b[k]))
  {
    assert Xor(b, Mask(k)) == Put(b, k, !b[k]);
    assert b == Put(b, k, b[k]);
  }

  // Planes before p0 have been drawn on in the box, plane p0 in a part of it; nothing else has changed
  ghost predicate Drawing(before: seq<Byte>, now: seq<Byte>, ink: Ink, p0: nat, box: Box, part: Box) {
    && Mapped(|before|) && SameElsewhere(before, now)
    && forall p: nat, x: int, y: int | Plane(p) && On(x, y) :: DrawingAt(before, now, ink, p0, box, part, p, x, y)
  }

  ghost predicate DrawingAt(before: seq<Byte>, now: seq<Byte>, ink: Ink, p0: nat, box: Box, part: Box, p: nat, x: int,
                            y: int)
    requires Mapped(|before|) && |now| == |before| && Plane(p) && On(x, y)
  {
    Bit(now, p, x, y) ==
      if (p < p0 && box.Has(x, y)) || (p == p0 && part.Has(x, y)) then ink.Bit(p, Bit(before, p, x, y))
      else Bit(before, p, x, y)
  }

  // Every pixel of the box has been drawn on; nothing else has changed
  ghost predicate Drawn(before: seq<Byte>, after: seq<Byte>, ink: Ink, box: Box) {
    && Mapped(|before|) && SameElsewhere(before, after)
    && forall x, y | On(x, y) ::
         Pixel(after, x, y) ==
           if box.Has(x, y) then if ink.xor then Xor(Pixel(before, x, y), ink.c) else ink.c else Pixel(before, x, y)
  }

  lemma DrawingStart(mem: seq<Byte>, ink: Ink, box: Box, part: Box)
    requires Mapped(|mem|) && (part.x1 > part.x2 || part.y1 > part.y2)
    ensures Drawing(mem, mem, ink, 0, box, part)
  {
  }

  lemma DrawingPlane(before: seq<Byte>, now: seq<Byte>, ink: Ink, p0: nat, box: Box, part: Box)
    requires Drawing(before, now, ink, p0, box, box) && (part.x1 > part.x2 || part.y1 > part.y2)
    ensures Drawing(before, now, ink, p0 + 1, box, part)
  {
    hide Bit, Share;
    var p1 := p0 + 1;
    forall p: nat, x: int, y: int {:trigger DrawingAt(before, now, ink, p1, box, part, p, x, y)} | Plane(p) && On(x, y)
      ensures DrawingAt(before, now, ink, p1, box, part, p, x, y)
    {
      assert DrawingAt(before, now, ink, p0, box, box, p, x, y);
    }
  }

  lemma DrawingEnd(before: seq<Byte>, now: seq<Byte>, ink: Ink, box: Box, part: Box)
    requires Drawing(before, now, ink, 4, box, part)
    ensures Drawn(before, now, ink, box)
  {
    hide Bit, Share, Ink.Bit, SameElsewhere;
    SameSize(before, now);
    forall x, y | On(x, y)
      ensures Pixel(now, x, y) ==
        if box.Has(x, y) then if ink.xor then Xor(Pixel(before, x, y), ink.c) else ink.c else Pixel(before, x, y)
    {
      assert DrawingAt(before, now, ink, 4, box, part, 0, x, y) && DrawingAt(before, now, ink, 4, box, part, 1, x, y);
      assert DrawingAt(before, now, ink, 4, box, part, 2, x, y) && DrawingAt(before, now, ink, 4, box, part, 3, x, y);
      InkOnPixel(ink, Bit(before, 3, x, y), Bit(before, 2, x, y), Bit(before, 1, x, y), Bit(before, 0, x, y));
    }
  }

  lemma InkOnPixel(ink: Ink, b3: bool, b2: bool, b1: bool, b0: bool)
    ensures (if ink.xor then Xor([b3, b2, b1, b0], ink.c) else ink.c)
      == [ink.Bit(3, b3), ink.Bit(2, b2), ink.Bit(1, b1), ink.Bit(0, b0)]
  {
  }

  // One more pixel of the line, in plane p0
  lemma DrawingPut(before: seq<Byte>, now: seq<Byte>, ink: Ink, p0: nat, box: Box, part: Box, x0: int, y0: int,
                   more: Box)
    requires Drawing(before, now, ink, p0, box, part) && Plane(p0) && On(x0, y0) && !part.Has(x0, y0)
    requires forall x, y | On(x, y) :: more.Has(x, y) == (part.Has(x, y) || (x == x0 && y == y0))
    ensures Mapped(|now|)
    ensures Drawing(before, now[Spot(p0, x0, y0) := Inked(now[Spot(p0, x0, y0)], x0 % 8, ink, p0)], ink, p0, box, more)
  {
    hide Spot, Put, Share, Inked, SameElsewhere;
    SameSize(before, now);
    var q := Spot(p0, x0, y0);
    var after := now[q := Inked(now[q], x0 % 8, ink, p0)];
    InkedIsPut(now[q], x0 % 8, ink, p0);
    ElsewhereAfterPut(before, now, p0, x0, y0, after[q]);
    SameSize(before, after);
    assert DrawingAt(before, now, ink, p0, box, part, p0, x0, y0);
    forall p: nat, x: int, y: int {:trigger DrawingAt(before, after, ink, p0, box, more, p, x, y)}
      | Plane(p) && On(x, y)
      ensures DrawingAt(before, after, ink, p0, box, more, p, x, y)
    {
      assert DrawingAt(before, now, ink, p0, box, part, p, x, y);
      BitAfterPut(now, p0, x0, y0, ink.Bit(p0, Bit(now, p0, x0, y0)), p, x, y);
    }
  }

  lemma SameSize(before: seq<Byte>, after: seq<Byte>)
    requires SameElsewhere(before, after)
    ensures |after| == |before|
  {
  }

  // Eight more pixels of the line, in plane p0
  lemma DrawingByte(before: seq<Byte>, now: seq<Byte>, ink: Ink, p0: nat, box: Box, part: Box, x0: int, y0: int,
                    more: Box)
    requires Drawing(before, now, ink, p0, box, part) && Plane(p0) && On(x0, y0) && x0 % 8 == 0
    requires forall x | x0 <= x < x0 + 8 :: !part.Has(x, y0)
    requires forall x, y | On(x, y) :: more.Has(x, y) == (part.Has(x, y) || (x0 <= x < x0 + 8 && y == y0))
    ensures Mapped(|now|)
    ensures Drawing(before, now[Spot(p0, x0, y0) := AllInked(now[Spot(p0, x0, y0)], ink, p0)], ink, p0, box, more)
  {
    hide Spot, Put, Share, SameElsewhere;
    SameSize(before, now);
    var q := Spot(p0, x0, y0);
    var after := now[q := AllInked(now[q], ink, p0)];
    ElsewhereAfterPut(before, now, p0, x0, y0, after[q]);
    SameSize(before, after);
    forall p: nat, x: int, y: int {:trigger DrawingAt(before, after, ink, p0, box, more, p, x, y)}
      | Plane(p) && On(x, y)
      ensures DrawingAt(before, after, ink, p0, box, more, p, x, y)
    {
      assert DrawingAt(before, now, ink, p0, box, part, p, x, y);
      SpotApart(p0, x0, y0, p, x, y);
    }
  }

  /** pc98_readpixel */
  method ReadPixel(mem: array<Byte>, x: int, y: int) returns (c: Byte)
    requires Mapped(mem.Length) && On(x, y)
    ensures Linear4.Small(c) && Linear4.Low(c) == Pixel(mem[..], x, y)
    // the segments from the most significant bit down
    ensures var q, k := 80 * y + x / 8, x % 8;
      c[4..] == [mem[0xe0000 + q][k], mem[0xb0000 + q][k], mem[0xb8000 + q][k], mem[0xa8000 + q][k]]
  {
    c := Fill(8, false);
    var plane := 0;
    while plane < 4
      invariant 0 <= plane <= 4
      invariant forall k | 0 <= k < 8 :: c[k] == (7 - k < plane && Bit(mem[..], 7 - k, x, y))
    {
      var src := SCREENBASE[plane] + x / 8 + y * BYTESPERLINE;
      if mem[src][x % 8] {
        c := Or(c, Shl([false, false, false, false, false, false, false, true], plane));
      }
      plane := plane + 1;
    }
  }

  /** pc98_drawpixel */
  method DrawPixel(mem: array<Byte>, x: int, y: int, ink: Ink)
    requires Mapped(mem.Length) && On(x, y)
    modifies mem
    ensures Drawn(old(mem[..]), mem[..], ink, Box(x, y, x, y))
  {
    hide Drawing, Drawn, Inked, Share, Bit;
    ghost var before, box, none := mem[..], Box(x, y, x, y), Box(x, y, x - 1, y);
    DrawingStart(before, ink, box, none);
    var plane := 0;
    while plane < 4
      invariant 0 <= plane <= 4 && Drawing(before, mem[..], ink, plane, box, none)
    {
      var dst := SCREENBASE[plane] + x / 8 + y * BYTESPERLINE;
      DrawingPut(before, mem[..], ink, plane, box, none, x, y, box);
      mem[dst] := Inked(mem[dst], x % 8, ink, plane);
      DrawingPlane(before, mem[..], ink, plane, box, none);
      plane := plane + 1;
    }
    DrawingEnd(before, mem[..], ink, box, none);
  }

  // Drawing twice in XOR mode restores every pixel
  lemma XorTwice(m0: seq<Byte>, m1: seq<Byte>, m2: seq<Byte>, c: Nibble, box: Box)
    requires Drawn(m0, m1, Ink(c, true), box) && Drawn(m1, m2, Ink(c, true), box)
    ensures SameElsewhere(m0, m2) && forall x, y | On(x, y) :: Pixel(m2, x, y) == Pixel(m0, x, y)
  {
    hide Pixel;
    forall x, y | On(x, y) ensures Pixel(m2, x, y) == Pixel(m0, x, y) {
      var v := Pixel(m0, x, y);
      assert Xor(Xor(v, c), c) == v;
    }
  }

  // The loop over the whole bytes of a plane, which advances only where it draws: its pointer after k rounds
  function Pointer(dst: int, last: int, ink: Ink, p: nat, k: nat): int
    requires p < 4
  {
    if k == 0 then dst
    else
      var d := Pointer(dst, last, ink, p, k - 1);
      if d < last && (!ink.xor || Share(ink.c, p)) then d + 1 else d
  }

  // It ends just if the plane is drawn on, or there is nothing to do
  lemma {:induction false} LoopEnds(dst: int, last: int, ink: Ink, p: nat)
    requires p < 4
    ensures (exists k: nat :: Pointer(dst, last, ink, p, k) >= last) <==> !ink.xor || Share(ink.c, p) || dst >= last
  {
    hide Share;
    if !ink.xor || Share(ink.c, p) || dst >= last {
      PointerMoves(dst, last, ink, p, if dst < last then last - dst else 0);
    } else {
      forall k: nat ensures Pointer(dst, last, ink, p, k) < last {
        PointerStays(dst, last, ink, p, k);
      }
    }
  }

  lemma {:induction false} PointerMoves(dst: int, last: int, ink: Ink, p: nat, k: nat)
    requires p < 4 && (!ink.xor || Share(ink.c, p) || k == 0) && (dst + k <= last || k == 0)
    ensures Pointer(dst, last, ink, p, k) == dst + k
  {
    if k > 0 { PointerMoves(dst, last, ink, p, k - 1); }
  }

  lemma {:induction false} PointerStays(dst: int, last: int, ink: Ink, p: nat, k: nat)
    requires p < 4 && ink.xor && !Share(ink.c, p)
    ensures Pointer(dst, last, ink, p, k) == dst
  {
    if k > 0 { PointerStays(dst, last, ink, p, k - 1); }
  }

  // All loops of the line end: it is not in XOR mode, has no whole byte before its last one, or its colour is in every
  // plane
  predicate Ends(x1: int, x2: int, ink: Ink) {
    !ink.xor || (x1 + 7) / 8 >= x2 / 8 || forall p | 0 <= p < 4 :: Share(ink.c, p)
  }

  // The pointer where that loop starts in plane p, and where it is to stop
  function FirstWhole(p: nat, x1: int, y: int): int
    requires Plane(p)
  {
    SCREENBASE[p] + (x1 + 7) / 8 + y * BYTESPERLINE
  }

  function LastByte(p: nat, x2: int, y: int): int
    requires Plane(p)
  {
    SCREENBASE[p] + x2 / 8 + y * BYTESPERLINE
  }

  // Some round of plane p's loop comes to the end
  ghost predicate PlaneEnds(p: nat, x1: int, x2: int, y: int, ink: Ink)
    requires Plane(p)
  {
    exists k: nat :: Pointer(FirstWhole(p, x1, y), LastByte(p, x2, y), ink, p, k) >= LastByte(p, x2, y)
  }

  lemma EndsExactly(x1: int, x2: int, y: int, ink: Ink)
    ensures Ends(x1, x2, ink) <==> forall p: nat | Plane(p) :: PlaneEnds(p, x1, x2, y, ink)
  {
    hide Share, Pointer, PlaneEnds;
    forall p: nat | Plane(p)
      ensures PlaneEnds(p, x1, x2, y, ink) <==> !ink.xor || Share(ink.c, p) || (x1 + 7) / 8 >= x2 / 8
    {
      PlaneEndsIf(p, x1, x2, y, ink);
    }
  }

  lemma PlaneEndsIf(p: nat, x1: int, x2: int, y: int, ink: Ink)
    requires Plane(p)
    ensures PlaneEnds(p, x1, x2, y, ink) <==> !ink.xor || Share(ink.c, p) || (x1 + 7) / 8 >= x2 / 8
  {
    hide Share;
    var dst, last := FirstWhole(p, x1, y), LastByte(p, x2, y);
    LoopEnds(dst, last, ink, p);
    if !ink.xor || Share(ink.c, p) || dst >= last {
      var k: nat :| Pointer(dst, last, ink, p, k) >= last;
      assert Pointer(FirstWhole(p, x1, y), LastByte(p, x2, y), ink, p, k) >= LastByte(p, x2, y);
    }
    if PlaneEnds(p, x1, x2, y, ink) {
      var k: nat :| Pointer(FirstWhole(p, x1, y), LastByte(p, x2, y), ink, p, k) >= LastByte(p, x2, y);
      assert Pointer(dst, last, ink, p, k) >= last;
    }
  }

  // A line of two bytes and a bit in XOR mode, in a colour that leaves out plane 0
  lemma NeverEnds()
    ensures !Ends(0, 16, Ink([true, true, true, false], true))
  {
    assert !Share([true, true, true, false], 0);
  }

  /** pc98_drawhorzline in COPY and XOR mode: single pixels up to a byte boundary, whole bytes, single pixels again */
  method DrawHorzLine(mem: array<Byte>, x1: int, x2: int, y: int, ink: Ink)
    requires Mapped(mem.Length) && On(x1, y) && On(x2, y) && x1 <= x2 && Ends(x1, x2, ink)
    modifies mem
    ensures Drawn(old(mem[..]), mem[..], ink, Box(x1, y, x2, y))
  {
    hide Drawing, Drawn, Inked, AllInked, Share, Bit, SameElsewhere, Pixel;
    ghost var before, box, none := mem[..], Box(x1, y, x2, y), Box(x1, y, x1 - 1, y);
    DrawingStart(before, ink, box, none);
    var plane := 0;
    while plane < 4
      invariant 0 <= plane <= 4 && Drawing(before, mem[..], ink, plane, box, none)
    {
      var dst := SCREENBASE[plane] + x1 / 8 + y * BYTESPERLINE;
      if x1 / 8 == x2 / 8 {
        DrawPart(mem, plane, x1, x2 + 1, y, ink, dst, before, box, x1);
      } else {
        var x := (x1 + 7) / 8 * 8;
        DrawPart(mem, plane, x1, x, y, ink, dst, before, box, x1);
        if x1 % 8 != 0 {
          dst := dst + 1;
        }
        dst := DrawBytes(mem, plane, x, x2, y, ink, dst, before, box, x1);
        DrawPart(mem, plane, x2 / 8 * 8, x2 + 1, y, ink, dst, before, box, x1);
      }
      DrawingPlane(before, mem[..], ink, plane, box, none);
      plane := plane + 1;
    }
    DrawingEnd(before, mem[..], ink, box, none);
  }

  // The loops over single pixels, all in the byte at dst: x1 up to, but without, x2
  method DrawPart(mem: array<Byte>, plane: nat, x1: int, x2: int, y: int, ink: Ink, dst: nat, ghost before: seq<Byte>,
                  ghost box: Box, ghost x0: int)
    requires Mapped(mem.Length) && Plane(plane) && x0 <= x1 <= x2
        && (x1 < x2 ==> On(x1, y) && On(x2 - 1, y) && (x2 - 1) / 8 == x1 / 8)
    requires x1 < x2 ==> dst == Spot(plane, x1, y)
    requires |before| == mem.Length && Drawing(before, mem[..], ink, plane, box, Box(x0, y, x1 - 1, y))
    modifies mem
    ensures Drawing(before, mem[..], ink, plane, box, Box(x0, y, x2 - 1, y))
  {
    hide Drawing, Inked, Share, Bit;
    var x := x1;
    while x < x2
      invariant x1 <= x <= x2 && Drawing(before, mem[..], ink, plane, box, Box(x0, y, x - 1, y))
    {
      DrawingPut(before, mem[..], ink, plane, box, Box(x0, y, x - 1, y), x, y, Box(x0, y, x, y));
      mem[dst] := Inked(mem[dst], x % 8, ink, plane);
      x := x + 1;
    }
  }

  // The loop over whole bytes: x up to the byte of x2
  method DrawBytes(mem: array<Byte>, plane: nat, ghost x: int, x2: int, y: int, ink: Ink, dst0: nat,
                   ghost before: seq<Byte>, ghost box: Box, ghost x0: int) returns (dst: nat)
    requires Mapped(mem.Length) && Plane(plane) && x0 <= x <= x2 && x % 8 == 0 && On(x, y) && On(x2, y)
    requires dst0 == Spot(plane, x, y) && (!ink.xor || x / 8 >= x2 / 8 || Share(ink.c, plane))
    requires |before| == mem.Length && Drawing(before, mem[..], ink, plane, box, Box(x0, y, x - 1, y))
    modifies mem
    ensures dst == Spot(plane, x2, y) && Drawing(before, mem[..], ink, plane, box, Box(x0, y, x2 / 8 * 8 - 1, y))
  {
    hide Drawing, AllInked, Share, Bit;
    dst := dst0;
    ghost var x' := x;
    var last := SCREENBASE[plane] + x2 / 8 + y * BYTESPERLINE;
    while dst < last
      invariant x <= x' <= x2 && x' % 8 == 0 && dst == Spot(plane, x', y) <= last
      invariant Drawing(before, mem[..], ink, plane, box, Box(x0, y, x' - 1, y))
    {
      DrawingByte(before, mem[..], ink, plane, box, Box(x0, y, x' - 1, y), x', y, Box(x0, y, x' + 7, y));
      mem[dst] := AllInked(mem[dst], ink, plane);
      if !ink.xor || Share(ink.c, plane) {
        dst, x' := dst + 1, x' + 8;
      }
    }
  }

  lemma DrawnFurther(before: seq<Byte>, now: seq<Byte>, after: seq<Byte>, ink: Ink, part: Box, x0: int, y0: int,
                     more: Box)
    requires Drawn(before, now, ink, part) && Drawn(now, after, ink, Box(x0, y0, x0, y0)) && !part.Has(x0, y0)
    requires forall x, y | On(x, y) :: more.Has(x, y) == (part.Has(x, y) || (x == x0 && y == y0))
    ensures Drawn(before, after, ink, more)
  {
    hide Pixel;
  }

  lemma DrawnNothing(mem: seq<Byte>, ink: Ink, part: Box)
    requires Mapped(|mem|) && (part.x1 > part.x2 || part.y1 > part.y2)
    ensures Drawn(mem, mem, ink, part)
  {
  }

  /** pc98_drawhorzline in any other mode: pixel by pixel, with the same result as COPY */
  method DrawHorzLineSlowly(mem: array<Byte>, x1: int, x2: int, y: int, c: Nibble)
    requires Mapped(mem.Length) && On(x1, y) && On(x2, y) && x1 <= x2
    modifies mem
    ensures Drawn(old(mem[..]), mem[..], Ink(c, false), Box(x1, y, x2, y))
  {
    hide Drawn;
    ghost var before, ink := mem[..], Ink(c, false);
    DrawnNothing(before, ink, Box(x1, y, x1 - 1, y));
    var x := x1;
    while x <= x2
      invariant x1 <= x <= x2 + 1 && Drawn(before, mem[..], ink, Box(x1, y, x - 1, y))
    {
      ghost var now := mem[..];
      DrawPixel(mem, x, y, Ink(c, false));
      DrawnFurther(before, now, mem[..], ink, Box(x1, y, x - 1, y), x, y, Box(x1, y, x, y));
      x := x + 1;
    }
  }
}
