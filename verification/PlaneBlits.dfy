/** Blits between packed 4bpp memory and the planes of the PC-98 (vgaplan4_mem_pc98.c). */
module PlaneBlits {
  import opened Bits
  import opened Rows
  import opened Planes
  import opened Rops
  import L = Linear4
  import P = PackedBlits

  /** A rectangle of packed pixels at (mx, my) and one of planar pixels at (vx, vy). */
  datatype Pair = Pair(w: nat, h: nat, mx: nat, my: nat, pitch: nat, vx: nat, vy: nat) {

    // The rectangles are inside the packed memory and on the screen
    ghost predicate Inside(size: nat) {
      && w > 0 && h > 0 && mx + w <= 2 * pitch && Row(pitch, my + h) <= size
      && On(vx, vy) && On(vx + w - 1, vy + h - 1)
    }

    lemma InsideAt(size: nat, i: nat, j: nat)
      requires Inside(size) && i < w && j < h
      ensures On(vx + i, vy + j)
      ensures L.Place(pitch, mx + i, my + j) < 2 * size
      ensures Row(pitch, my + j) + (mx + i) / 2 < size
      ensures L.Place(pitch, mx + i, my + j) / 2 == Row(pitch, my + j) + (mx + i) / 2
      ensures L.Place(pitch, mx + i, my + j) % 2 == (mx + i) % 2
    {
      RowMonotone(pitch, my + j, my + h);
      L.PlaceByte(pitch, mx + i, my + j);
    }

    // The packed pixel at column i of row j
    ghost function Packed(bytes: seq<Byte>, i: nat, j: nat): Nibble
      requires Inside(|bytes|) && i < w && j < h
    {
      InsideAt(|bytes|, i, j);
      L.NibbleAt(bytes, L.Place(pitch, mx + i, my + j))
    }

    predicate HasPlanar(x: int, y: int) { vx <= x < vx + w && vy <= y < vy + h }
  }

  // The blit has come to column i of plane p0 in row j
  predicate Passed(k: Pair, i: int, p0: int, j: int, p: int, x: int, y: int) {
    k.HasPlanar(x, y) && (y < k.vy + j || (y == k.vy + j && (p < p0 || (p == p0 && x < k.vx + i))))
  }

  ghost predicate ToPlanes(k: Pair, bytes: seq<Byte>, before: seq<Byte>, now: seq<Byte>, i: int, p0: int, j: int)
    requires k.Inside(|bytes|) && Mapped(|before|)
  {
    && SameElsewhere(before, now)
    && forall p: nat, x: int, y: int {:trigger ToPlanesAt(k, bytes, before, now, i, p0, j, p, x, y)}
         | Plane(p) && On(x, y) ::
         ToPlanesAt(k, bytes, before, now, i, p0, j, p, x, y)
  }

  ghost predicate ToPlanesAt(k: Pair, bytes: seq<Byte>, before: seq<Byte>, now: seq<Byte>, i: int, p0: int, j: int,
                             p: nat, x: int, y: int)
    requires k.Inside(|bytes|) && Mapped(|before|) && |now| == |before| && Plane(p) && On(x, y)
  {
    Bit(now, p, x, y) ==
      if Passed(k, i, p0, j, p, x, y) then Share(k.Packed(bytes, x - k.vx, y - k.vy), p) else Bit(before, p, x, y)
  }

  lemma ToPlanesNext(k: Pair, bytes: seq<Byte>, before: seq<Byte>, now: seq<Byte>, i: nat, p0: nat, j: nat,
                     after: seq<Byte>)
    requires k.Inside(|bytes|) && Mapped(|before|) && ToPlanes(k, bytes, before, now, i, p0, j) && i < k.w
        && j < k.h && Plane(p0)
    requires On(k.vx + i, k.vy + j)
    requires var q := Spot(p0, k.vx + i, k.vy + j);
      |now| == |before| && after == now[q := Put(now[q], (k.vx + i) % 8, Share(k.Packed(bytes, i, j), p0))]
    ensures ToPlanes(k, bytes, before, after, i + 1, p0, j)
  {
    hide Bit, Spot, Put, Share, SameElsewhere, Pair.Packed, Pair.Inside;
    var i' := i + 1;
    ElsewhereAfterPut(before, now, p0, k.vx + i, k.vy + j, after[Spot(p0, k.vx + i, k.vy + j)]);
    SameSize(before, after);
    forall p: nat, x: int, y: int {:trigger ToPlanesAt(k, bytes, before, after, i', p0, j, p, x, y)}
      | Plane(p) && On(x, y)
      ensures ToPlanesAt(k, bytes, before, after, i', p0, j, p, x, y)
    {
      assert ToPlanesAt(k, bytes, before, now, i, p0, j, p, x, y);
      BitAfterPut(now, p0, k.vx + i, k.vy + j, Share(k.Packed(bytes, i, j), p0), p, x, y);
    }
  }

  // Nothing is passed between the end of one row, or of one plane of it, and the start of the next
  lemma ToPlanesOn(k: Pair, bytes: seq<Byte>, before: seq<Byte>, now: seq<Byte>, i: int, p0: int, j: int, i': int,
                   p1: int, j': int)
    requires k.Inside(|bytes|) && Mapped(|before|) && ToPlanes(k, bytes, before, now, i, p0, j)
    requires (i == k.w && p1 == p0 + 1 && i' == 0 && j' == j) || (i == i' == 0 && p0 == 4 && p1 == 0 && j' == j + 1)
    ensures ToPlanes(k, bytes, before, now, i', p1, j')
  {
    hide Bit, Share, SameElsewhere, Pair.Packed, Pair.Inside;
    SameSize(before, now);
    forall p: nat, x: int, y: int {:trigger ToPlanesAt(k, bytes, before, now, i', p1, j', p, x, y)}
      | Plane(p) && On(x, y)
      ensures ToPlanesAt(k, bytes, before, now, i', p1, j', p, x, y)
    {
      assert ToPlanesAt(k, bytes, before, now, i, p0, j, p, x, y);
    }
  }

  // The planar rectangle shows the packed one; nothing else has changed
  ghost predicate Unpacked(k: Pair, bytes: seq<Byte>, before: seq<Byte>, after: seq<Byte>)
    requires k.Inside(|bytes|) && Mapped(|before|)
  {
    && SameElsewhere(before, after)
    && forall x, y | On(x, y) ::
         Pixel(after, x, y) == if k.HasPlanar(x, y) then k.Packed(bytes, x - k.vx, y - k.vy) else Pixel(before, x, y)
  }

  lemma ToPlanesStart(k: Pair, bytes: seq<Byte>, before: seq<Byte>)
    requires k.Inside(|bytes|) && Mapped(|before|)
    ensures ToPlanes(k, bytes, before, before, 0, 0, 0)
  {
  }

  lemma ToPlanesEnd(k: Pair, bytes: seq<Byte>, before: seq<Byte>, now: seq<Byte>)
    requires k.Inside(|bytes|) && Mapped(|before|) && ToPlanes(k, bytes, before, now, 0, 0, k.h)
    ensures Unpacked(k, bytes, before, now)
  {
    hide SameElsewhere, Pair.Packed, Pair.Inside, Bit;
    SameSize(before, now);
    forall x, y | On(x, y)
      ensures Pixel(now, x, y) == if k.HasPlanar(x, y) then k.Packed(bytes, x - k.vx, y - k.vy) else Pixel(before, x, y)
    {
      assert ToPlanesAt(k, bytes, before, now, 0, 0, k.h, 0, x, y)
          && ToPlanesAt(k, bytes, before, now, 0, 0, k.h, 1, x, y);
      assert ToPlanesAt(k, bytes, before, now, 0, 0, k.h, 2, x, y)
          && ToPlanesAt(k, bytes, before, now, 0, 0, k.h, 3, x, y);
    }
  }

  /** mempl4_to_vga_blit */
  method MemToVga(mem: array<Byte>, src: array<Byte>, k: Pair)
    requires mem != src && Mapped(mem.Length) && k.Inside(src.Length)
    modifies mem
    ensures Unpacked(k, src[..], old(mem[..]), mem[..])
  {
    hide ToPlanes, Unpacked, Bit, Put, Share, Spot, Row, Pair.Packed, Pair.Inside;
    ghost var before, bytes := mem[..], src[..];
    ToPlanesStart(k, bytes, before);
    RowIsProduct(k.pitch, k.my);
    var s0, j := k.mx / 2 + k.my * k.pitch, 0;
    while j < k.h
      invariant 0 <= j <= k.h && src[..] == bytes && s0 == Row(k.pitch, k.my + j) + k.mx / 2
      invariant ToPlanes(k, bytes, before, mem[..], 0, 0, j)
    {
      var plane := 0;
      while plane < 4
        invariant 0 <= plane <= 4 && src[..] == bytes && ToPlanes(k, bytes, before, mem[..], 0, plane, j)
      {
        RowToPlane(mem, src, k, s0, plane, j, before);
        ToPlanesOn(k, bytes, before, mem[..], k.w, plane, j, 0, plane + 1, j);
        plane := plane + 1;
      }
      ToPlanesOn(k, bytes, before, mem[..], 0, 4, j, 0, 0, j + 1);
      NextRow(k.pitch, k.my + j);
      s0, j := s0 + k.pitch, j + 1;
    }
    ToPlanesEnd(k, bytes, before, mem[..]);
  }

  // One row, one plane
  method RowToPlane(mem: array<Byte>, src: array<Byte>, k: Pair, s0: nat, plane: nat, j: nat, ghost before: seq<Byte>)
    requires mem != src && Mapped(mem.Length) && |before| == mem.Length && k.Inside(src.Length) && j < k.h && plane < 4
    requires s0 == Row(k.pitch, k.my + j) + k.mx / 2 && ToPlanes(k, src[..], before, mem[..], 0, plane, j)
    modifies mem
    ensures ToPlanes(k, src[..], before, mem[..], k.w, plane, j)
  {
    hide ToPlanes, Bit, Put, Share, Row, Pair.Packed, Pair.Inside, L.Load, L.Masked, L.Low;
    ghost var bytes := src[..];
    var d, s, dx, sx := SCREENBASE[plane] + k.vx / 8 + (k.vy + j) * BYTESPERLINE, s0, k.vx, k.mx;
    var i := 0;
    while i < k.w
      invariant 0 <= i <= k.w && dx == k.vx + i && sx == k.mx + i && src[..] == bytes
      invariant d == SCREENBASE[plane] + dx / 8 + (k.vy + j) * BYTESPERLINE && s == Row(k.pitch, k.my + j) + sx / 2
      invariant ToPlanes(k, bytes, before, mem[..], i, plane, j)
    {
      k.InsideAt(src.Length, i, j);
      ghost var now := mem[..];
      var color := L.Masked(L.Load(src[s], sx));
      ColorIs(k, bytes, i, j, src[s]);
      mem[d] := Put(mem[d], dx % 8, Share(L.Low(color), plane));
      ToPlanesNext(k, bytes, before, now, i, plane, j, mem[..]);
      dx := dx + 1;
      if dx % 8 == 0 {
        d := d + 1;
      }
      sx := sx + 1;
      if sx % 2 == 0 {
        s := s + 1;
      }
      i := i + 1;
    }
  }

  // The colour that the inner loop takes from the packed byte
  lemma ColorIs(k: Pair, bytes: seq<Byte>, i: nat, j: nat, b: Byte)
    requires k.Inside(|bytes|) && i < k.w && j < k.h
    requires Row(k.pitch, k.my + j) + (k.mx + i) / 2 < |bytes| && b == bytes[Row(k.pitch, k.my + j) + (k.mx + i) / 2]
    ensures L.Low(L.Masked(L.Load(b, k.mx + i))) == k.Packed(bytes, i, j)
  {
    k.InsideAt(|bytes|, i, j);
    L.LoadNibble(b, k.mx + i);
    L.MaskedNibble(L.Load(b, k.mx + i));
  }

  // What vga_to_mempl4_blit makes of the nibble at x of a row: it stores whole bytes only, and only after their
  // right pixel; the half of the first byte that lies left of the rectangle becomes zero
  ghost function Repacked(k: Pair, mem: seq<Byte>, bytes: seq<Byte>, cols: int, rows: int, x: nat, y: nat): Nibble
    requires Mapped(|mem|) && k.Inside(|bytes|) && rows <= k.h && cols <= k.w && (cols <= 0 || rows < k.h)
    requires L.Place(k.pitch, x, y) < 2 * |bytes|
  {
    var done := if y < k.my + rows then k.w else if y == k.my + rows then cols else 0;
    if k.my <= y && done > 0 && k.mx / 2 <= x / 2 < (k.mx + done) / 2 then
      if x >= k.mx then PlanarAt(k, |bytes|, mem, x - k.mx, y - k.my) else [false, false, false, false]
    else L.NibbleAt(bytes, L.Place(k.pitch, x, y))
  }

  ghost function PlanarAt(k: Pair, size: nat, mem: seq<Byte>, i: int, j: int): Nibble
    requires Mapped(|mem|) && k.Inside(size) && 0 <= i < k.w && 0 <= j < k.h
  {
    k.InsideAt(size, i, j);
    Pixel(mem, k.vx + i, k.vy + j)
  }

  // The blit has done `rows` rows, and `cols` columns of the next
  ghost predicate FromPlanes(k: Pair, mem: seq<Byte>, before: seq<Byte>, now: seq<Byte>, cols: int, rows: int)
    requires Mapped(|mem|) && k.Inside(|before|) && rows <= k.h && cols <= k.w && (cols <= 0 || rows < k.h)
  {
    && |now| == |before|
    && forall x: nat, y: nat {:trigger FromPlanesAt(k, mem, before, now, cols, rows, x, y)} |
         x < 2 * k.pitch && L.Place(k.pitch, x, y) < 2 * |before| :: FromPlanesAt(k, mem, before, now, cols, rows, x, y)
  }

  ghost predicate FromPlanesAt(k: Pair, mem: seq<Byte>, before: seq<Byte>, now: seq<Byte>, cols: int, rows: int, x: nat,
                               y: nat)
    requires Mapped(|mem|) && k.Inside(|before|) && rows <= k.h && cols <= k.w && (cols <= 0 || rows < k.h)
    requires |now| == |before| && L.Place(k.pitch, x, y) < 2 * |before|
  {
    L.NibbleAt(now, L.Place(k.pitch, x, y)) == Repacked(k, mem, before, cols, rows, x, y)
  }

  /** The loop over the planes in vga_to_mempl4_blit, for one pixel. */
  method Gather(mem: array<Byte>, s0: seq<nat>, sx0: seq<int>, ghost x: int, ghost y: int, dx: nat, color0: Byte)
    returns (color: Byte, s: seq<nat>, sx: seq<int>)
    requires Mapped(mem.Length) && On(x, y) && |s0| == 4 && |sx0| == 4
    requires forall p | 0 <= p < 4 :: s0[p] == Spot(p, x, y) && sx0[p] == x
    requires L.Half(color0, dx % 2) == [false, false, false, false]
    ensures L.Half(color, dx % 2) == Pixel(mem[..], x, y) && L.Half(color, 1 - dx % 2) == L.Half(color0, 1 - dx % 2)
    ensures |s| == 4 && |sx| == 4 && forall p | 0 <= p < 4 ::
      s[p] == SCREENBASE[p] + (x + 1) / 8 + y * BYTESPERLINE && sx[p] == x + 1
  {
    hide Put, L.Half, Gathered;
    color, s, sx := color0, s0, sx0;
    ghost var pixel := Pixel(mem[..], x, y);
    GatheredNone(color0, dx % 2, pixel);
    var plane := 0;
    while plane < 4
      invariant 0 <= plane <= 4 && |s| == 4 && |sx| == 4
      invariant forall p | 0 <= p < plane :: s[p] == SCREENBASE[p] + (x + 1) / 8 + y * BYTESPERLINE && sx[p] == x + 1
      invariant forall p | plane <= p < 4 :: s[p] == Spot(p, x, y) && sx[p] == x
      invariant Gathered(color0, color, dx % 2, plane, pixel)
    {
      assert mem[s[plane]][sx[plane] % 8] == Share(pixel, plane);
      GatheredNext(color0, color, dx % 2, plane, pixel);
      if mem[s[plane]][sx[plane] % 8] {
        color := Put(color, 3 - plane + 4 * (dx % 2), true);
      }
      sx := sx[plane := sx[plane] + 1];
      if sx[plane] % 8 == 0 {
        s := s[plane := s[plane] + 1];
      }
      plane := plane + 1;
    }
    GatheredAll(color0, color, dx % 2, pixel);
  }

  // The shares of the planes before `plane` are in half h of the byte
  ghost predicate Gathered(color0: Byte, color: Byte, h: nat, plane: int, pixel: Nibble) {
    forall n | 0 <= n < 8 :: color[n] == if n / 4 == h then 3 - n % 4 < plane && pixel[n % 4] else color0[n]
  }

  lemma GatheredNone(color0: Byte, h: nat, pixel: Nibble)
    requires h < 2 && L.Half(color0, h) == [false, false, false, false]
    ensures Gathered(color0, color0, h, 0, pixel)
  {
    forall n | 0 <= n < 8 && n / 4 == h ensures !color0[n] {
      assert L.Half(color0, h)[n % 4] == color0[n];
    }
  }

  lemma GatheredNext(color0: Byte, color: Byte, h: nat, plane: nat, pixel: Nibble)
    requires h < 2 && plane < 4 && Gathered(color0, color, h, plane, pixel)
    ensures Gathered(color0, if Share(pixel, plane) then Put(color, 3 - plane + 4 * h, true) else color, h,
        plane + 1, pixel)
  {
    hide Put;
    forall n: nat | n < 8
      ensures Put(color, 3 - plane + 4 * h, true)[n] == if n == 3 - plane + 4 * h then true else color[n]
    {
      PutAt(color, 3 - plane + 4 * h, true, n);
    }
  }

  lemma GatheredAll(color0: Byte, color: Byte, h: nat, pixel: Nibble)
    requires h < 2 && Gathered(color0, color, h, 4, pixel)
    ensures L.Half(color, h) == pixel && L.Half(color, 1 - h) == L.Half(color0, 1 - h)
  {
  }

  // A pixel on an even column of the packed memory is only collected, one on an odd column is stored with it
  lemma FromPlanesNext(k: Pair, mem: seq<Byte>, before: seq<Byte>, now: seq<Byte>, i: nat, j: nat, color: Byte,
                       after: seq<Byte>)
    requires Mapped(|mem|) && k.Inside(|before|) && i < k.w && j < k.h && FromPlanes(k, mem, before, now, i, j)
    requires k.mx + k.w <= 2 * k.pitch
    requires L.Half(color, (k.mx + i) % 2) == PlanarAt(k, |before|, mem, i, j)
    requires (k.mx + i) % 2 == 1 ==>
      L.Half(color, 0) == if i > 0 then PlanarAt(k, |before|, mem, i - 1, j) else [false, false, false, false]
    requires Row(k.pitch, k.my + j) + (k.mx + i) / 2 < |now|
    requires after == if (k.mx + i) % 2 == 1 then now[Row(k.pitch, k.my + j) + (k.mx + i) / 2 := color] else now
    ensures FromPlanes(k, mem, before, after, i + 1, j)
  {
    hide Row, L.Half, PlanarAt, Pair.Inside;
    var i' := i + 1;
    L.PlaceByte(k.pitch, k.mx + i, k.my + j);
    forall x: nat, y: nat {:trigger FromPlanesAt(k, mem, before, after, i', j, x, y)}
      | x < 2 * k.pitch && L.Place(k.pitch, x, y) < 2 * |before|
      ensures FromPlanesAt(k, mem, before, after, i', j, x, y)
    {
      assert FromPlanesAt(k, mem, before, now, i, j, x, y);
      L.PlaceByte(k.pitch, x, y);
      SameByte(k, x, y, k.mx + i, k.my + j);
    }
  }

  // Only the two halves of one byte are at its place
  lemma SameByte(k: Pair, x: nat, y: nat, x': nat, y': nat)
    requires x / 2 < k.pitch && x' / 2 < k.pitch
    ensures Row(k.pitch, y) + x / 2 == Row(k.pitch, y') + x' / 2 <==> y == y' && x / 2 == x' / 2
  {
    if y < y' { RowMonotone(k.pitch, y, y'); }
    if y' < y { RowMonotone(k.pitch, y', y); }
  }

  lemma FromPlanesStart(k: Pair, mem: seq<Byte>, before: seq<Byte>)
    requires Mapped(|mem|) && k.Inside(|before|)
    ensures FromPlanes(k, mem, before, before, 0, 0)
  {
  }

  lemma FromPlanesRow(k: Pair, mem: seq<Byte>, before: seq<Byte>, now: seq<Byte>, j: nat)
    requires Mapped(|mem|) && k.Inside(|before|) && j < k.h && FromPlanes(k, mem, before, now, k.w, j)
    ensures FromPlanes(k, mem, before, now, 0, j + 1)
  {
    hide L.NibbleAt, PlanarAt, Pair.Inside;
    var j' := j + 1;
    forall x: nat, y: nat {:trigger FromPlanesAt(k, mem, before, now, 0, j', x, y)}
      | x < 2 * k.pitch && L.Place(k.pitch, x, y) < 2 * |before|
      ensures FromPlanesAt(k, mem, before, now, 0, j', x, y)
    {
      assert FromPlanesAt(k, mem, before, now, k.w, j, x, y);
    }
  }

  lemma InsideFacts(k: Pair, size: nat)
    requires k.Inside(size)
    ensures k.w > 0 && k.h > 0 && k.mx + k.w <= 2 * k.pitch
  {
  }

  const NOTHING: Nibble := [false, false, false, false]

  lemma EmptyByte(h: nat)
    requires h < 2
    ensures L.Half(Fill(8, false), h) == NOTHING
  {
  }

  /** vga_to_mempl4_blit */
  method VgaToMem(mem: array<Byte>, dst: array<Byte>, k: Pair)
    requires mem != dst && Mapped(mem.Length) && k.Inside(dst.Length)
    modifies dst
    ensures FromPlanes(k, mem[..], old(dst[..]), dst[..], 0, k.h)
  {
    hide Row, FromPlanes, Pair.Inside;
    ghost var before, planes := dst[..], mem[..];
    FromPlanesStart(k, planes, before);
    RowIsProduct(k.pitch, k.my);
    var d0, j := k.mx / 2 + k.my * k.pitch, 0;
    while j < k.h
      invariant 0 <= j <= k.h && mem[..] == planes && d0 == Row(k.pitch, k.my + j) + k.mx / 2
      invariant FromPlanes(k, planes, before, dst[..], 0, j)
    {
      RowFromPlanes(mem, dst, k, d0, j, before);
      FromPlanesRow(k, planes, before, dst[..], j);
      NextRow(k.pitch, k.my + j);
      d0, j := d0 + k.pitch, j + 1;
    }
  }

  method RowFromPlanes(mem: array<Byte>, dst: array<Byte>, k: Pair, d0: nat, j: nat, ghost before: seq<Byte>)
    requires mem != dst && Mapped(mem.Length) && k.Inside(dst.Length) && |before| == dst.Length && j < k.h
    requires d0 == Row(k.pitch, k.my + j) + k.mx / 2 && FromPlanes(k, mem[..], before, dst[..], 0, j)
    modifies dst
    ensures FromPlanes(k, mem[..], before, dst[..], k.w, j)
  {
    hide Row, FromPlanes, L.Half, Pair.Inside, Pixel;
    ghost var planes := mem[..];
    var s, sx := [0, 0, 0, 0], [k.vx, k.vx, k.vx, k.vx];
    var plane := 0;
    while plane < 4
      invariant 0 <= plane <= 4 && |s| == 4 && forall p | 0 <= p < plane ::
        s[p] == SCREENBASE[p] + k.vx / 8 + (k.vy + j) * BYTESPERLINE
    {
      s := s[plane := SCREENBASE[plane] + k.vx / 8 + (k.vy + j) * BYTESPERLINE];
      plane := plane + 1;
    }
    var d, dx, color: Byte, i := d0, k.mx, Fill(8, false), 0;
    EmptyByte(0);
    EmptyByte(1);
    InsideFacts(k, dst.Length);
    while i < k.w
      invariant 0 <= i <= k.w && dx == k.mx + i && mem[..] == planes && d == Row(k.pitch, k.my + j) + dx / 2
      invariant |s| == 4 && |sx| == 4
      invariant forall p | 0 <= p < 4 ::
        s[p] == SCREENBASE[p] + (k.vx + i) / 8 + (k.vy + j) * BYTESPERLINE && sx[p] == k.vx + i
      invariant L.Half(color, 1) == NOTHING
      invariant L.Half(color, 0) == if dx % 2 == 1 && i > 0 then PlanarAt(k, |before|, planes, i - 1, j) else NOTHING
      invariant FromPlanes(k, planes, before, dst[..], i, j)
    {
      k.InsideAt(dst.Length, i, j);
      ghost var now := dst[..];
      color, s, sx := Gather(mem, s, sx, k.vx + i, k.vy + j, dx, color);
      if (dx + 1) % 2 == 0 {
        dst[d] := color;
      }
      FromPlanesNext(k, planes, before, now, i, j, color, dst[..]);
      dx := dx + 1;
      if dx % 2 == 0 {
        d := d + 1;
        color := Fill(8, false);
      }
      i := i + 1;
    }
  }

  // The rectangle of packed pixels has become what the planes show, and no other nibble has changed
  ghost predicate Fetched(k: Pair, mem: seq<Byte>, before: seq<Byte>, after: seq<Byte>)
    requires Mapped(|mem|) && k.Inside(|before|) && |after| == |before|
  {
    forall x: nat, y: nat {:trigger FetchedAt(k, mem, before, after, x, y)}
      | x < 2 * k.pitch && L.Place(k.pitch, x, y) < 2 * |before| ::
      FetchedAt(k, mem, before, after, x, y)
  }

  ghost predicate FetchedAt(k: Pair, mem: seq<Byte>, before: seq<Byte>, after: seq<Byte>, x: nat, y: nat)
    requires Mapped(|mem|) && k.Inside(|before|) && |after| == |before| && L.Place(k.pitch, x, y) < 2 * |before|
  {
    L.NibbleAt(after, L.Place(k.pitch, x, y)) ==
      if k.mx <= x < k.mx + k.w && k.my <= y < k.my + k.h then PlanarAt(k, |before|, mem, x - k.mx, y - k.my)
      else L.NibbleAt(before, L.Place(k.pitch, x, y))
  }

  // A blit to whole bytes of packed memory fetches the rectangle exactly
  lemma EvenFetches(k: Pair, mem: seq<Byte>, before: seq<Byte>, after: seq<Byte>)
    requires Mapped(|mem|) && k.Inside(|before|) && |after| == |before| && FromPlanes(k, mem, before, after, 0, k.h)
    requires k.mx % 2 == 0 && k.w % 2 == 0
    ensures Fetched(k, mem, before, after)
  {
    hide L.NibbleAt, PlanarAt, Pair.Inside;
    forall x: nat, y: nat {:trigger FetchedAt(k, mem, before, after, x, y)}
      | x < 2 * k.pitch && L.Place(k.pitch, x, y) < 2 * |before|
      ensures FetchedAt(k, mem, before, after, x, y)
    {
      assert FromPlanesAt(k, mem, before, after, 0, k.h, x, y);
    }
  }

  // Any other blit does not, on some contents: it clears a nibble to the left of the rectangle, or leaves out its
  // last column
  lemma OddMisses(k: Pair, size: nat, msize: nat)
    requires Mapped(msize) && k.Inside(size) && (k.mx % 2 == 1 || k.w % 2 == 1)
    ensures exists mem: seq<Byte>, before: seq<Byte> {:trigger k.Inside(|before|), Mapped(|mem|)} ::
      && |mem| == msize && |before| == size && Mapped(|mem|) && k.Inside(|before|)
      && forall after | |after| == size && FromPlanes(k, mem, before, after, 0, k.h) :: !Fetched(k, mem, before, after)
  {
    var mem := seq(msize, _ => Fill(8, false));
    var before := seq(size, _ => Fill(8, true));
    assert |mem| == msize && |before| == size;
    forall after | |after| == size && FromPlanes(k, mem, before, after, 0, k.h)
      ensures !Fetched(k, mem, before, after)
    {
      OddMissesHere(k, mem, before, after);
    }
  }

  lemma OddMissesHere(k: Pair, mem: seq<Byte>, before: seq<Byte>, after: seq<Byte>)
    requires Mapped(|mem|) && k.Inside(|before|) && (k.mx % 2 == 1 || k.w % 2 == 1)
    requires (forall q | 0 <= q < |mem| :: mem[q] == Fill(8, false)) && (forall q | 0 <= q < |before| ::
      before[q] == Fill(8, true))
    requires |after| == |before| && FromPlanes(k, mem, before, after, 0, k.h)
    ensures !Fetched(k, mem, before, after)
  {
    hide Pair.Inside, Row, L.Place, Spot;
    InsideFacts(k, |before|);
    k.InsideAt(|before|, 0, 0);
    k.InsideAt(|before|, k.w - 1, 0);
    var x := if k.mx % 2 == 1 then k.mx - 1 else k.mx + k.w - 1;
    L.PlaceByte(k.pitch, k.mx, k.my);
    L.PlaceByte(k.pitch, x, k.my);
    assert FromPlanesAt(k, mem, before, after, 0, k.h, x, k.my);
    var n := L.NibbleAt(before, L.Place(k.pitch, x, k.my));
    assert n[0];
    if k.mx % 2 == 1 {
      assert !L.NibbleAt(after, L.Place(k.pitch, x, k.my))[0];
      assert !FetchedAt(k, mem, before, after, x, k.my);
    } else {
      assert L.NibbleAt(after, L.Place(k.pitch, x, k.my)) == n;
      assert !PlanarAt(k, |before|, mem, k.w - 1, 0)[0];
      assert !FetchedAt(k, mem, before, after, x, k.my);
    }
  }

  // Back from the planes, every pixel of the block is what it was when it went there
  lemma ThereAndBack(there: Pair, back: Pair, src: seq<Byte>, mem0: seq<Byte>, mem: seq<Byte>, before: seq<Byte>,
                     after: seq<Byte>, i: nat, j: nat)
    requires Mapped(|mem0|) && there.Inside(|src|) && back.Inside(|before|)
    requires back.w == there.w && back.h == there.h && back.vx == there.vx && back.vy == there.vy
    requires Unpacked(there, src, mem0, mem) && |after| == |before| && Mapped(|mem|)
        && Fetched(back, mem, before, after)
    requires i < back.w && j < back.h
    ensures back.Packed(after, i, j) == there.Packed(src, i, j)
  {
    hide L.NibbleAt, Pixel, Row, Pair.Inside, L.Place, SameElsewhere;
    back.InsideAt(|before|, i, j);
    InsideFacts(back, |before|);
    assert FetchedAt(back, mem, before, after, back.mx + i, back.my + j);
    assert Pixel(mem, there.vx + i, there.vy + j) == there.Packed(src, i, j);
  }

  /** A block of packed pixels put on the screen and fetched again, to the same place or another, on whole bytes */
  method RoundTrip(mem: array<Byte>, src: array<Byte>, dst: array<Byte>, there: Pair, back: Pair)
    requires mem != src && mem != dst && Mapped(mem.Length) && there.Inside(src.Length) && back.Inside(dst.Length)
    requires back.w == there.w && back.h == there.h && back.vx == there.vx && back.vy == there.vy
    requires back.mx % 2 == 0 && back.w % 2 == 0
    modifies mem, dst
    ensures forall i: nat, j: nat | i < back.w && j < back.h ::
      back.Packed(dst[..], i, j) == there.Packed(old(src[..]), i, j)
    ensures Mapped(|mem[..]|) && Fetched(back, mem[..], old(dst[..]), dst[..])
    ensures Unpacked(there, old(src[..]), old(mem[..]), mem[..])
  {
    hide Unpacked, FromPlanes, Fetched, Pair.Inside, Pair.Packed;
    ghost var mem0, from, before := mem[..], src[..], dst[..];
    MemToVga(mem, src, there);
    VgaToMem(mem, dst, back);
    EvenFetches(back, mem[..], before, dst[..]);
    forall i: nat, j: nat | i < back.w && j < back.h ensures back.Packed(dst[..], i, j) == there.Packed(from, i, j) {
      ThereAndBack(there, back, from, mem0, mem[..], before, dst[..], i, j);
    }
  }

  /** mempl4_to_mempl4_blit: the packed blit, always copying, and reading every pixel from memory */
  method MemToMem(dst: array<Byte>, src: array<Byte>, asked: P.Copy)
    requires asked.Inside(src.Length, dst.Length)
    modifies dst
    ensures var t := P.Blitting(asked.(op := MWROP_COPY), false, dst == src, old(src[..]), old(dst[..]));
      t.Valid() && L.Nibbles(dst[..]) == t.Run(0, asked.h)
    ensures var t := P.Blitting(asked.(op := MWROP_COPY), false, dst == src, old(src[..]), old(dst[..]));
      dst != src || P.Ahead(asked, false) ==> t.Copied(dst[..])
  {
    hide *;
    var k := asked.(op := MWROP_COPY);
    ghost var t := P.Blitting(k, false, dst == src, src[..], dst[..]);
    P.BlitStart(t, asked);
    P.ComeStart(t);
    RowIsProduct(k.dpitch, k.dsty);
    RowIsProduct(k.spitch, k.srcy);
    var d0, s0, j := k.dstx / 2 + k.dsty * k.dpitch, k.srcx / 2 + k.srcy * k.spitch, 0;
    while j < k.h
      invariant 0 <= j <= k.h && P.Come(t, dst[..], src[..], 0, j)
      invariant d0 == Row(k.dpitch, k.dsty + j) + k.dstx / 2 && s0 == Row(k.spitch, k.srcy + j) + k.srcx / 2
    {
      RowToRow(dst, src, k, d0, s0, t, j);
      NextRow(k.dpitch, k.dsty + j);
      NextRow(k.spitch, k.srcy + j);
      d0, s0, j := d0 + k.dpitch, s0 + k.spitch, j + 1;
    }
    P.ComeEnd(t, dst[..], src[..]);
  }

  method RowToRow(dst: array<Byte>, src: array<Byte>, k: P.Copy, d0: nat, s0: nat, ghost t: P.Blitting, ghost j: nat)
    requires t.k == k && !t.held && k.op == MWROP_COPY && t.one == (dst == src) && j < k.h
    requires P.Come(t, dst[..], src[..], 0, j)
    requires d0 == Row(k.dpitch, k.dsty + j) + k.dstx / 2 && s0 == Row(k.spitch, k.srcy + j) + k.srcx / 2
    modifies dst
    ensures P.Come(t, dst[..], src[..], 0, j + 1)
  {
    hide *;
    var d, s, dx, sx, i := d0, s0, k.dstx, k.srcx, 0;
    while i < k.w
      invariant 0 <= i <= k.w && dx == k.dstx + i && sx == k.srcx + i && P.Come(t, dst[..], src[..], i, j)
      invariant d == Row(k.dpitch, k.dsty + j) + dx / 2 && s == Row(k.spitch, k.srcy + j) + sx / 2
    {
      ghost var now, from := dst[..], src[..];
      P.ComeInside(t, now, from, i, j);
      P.ComeSees(t, now, from, i, j);
      P.SeenHolds(t, from, i, i, j);
      ghost var c := src[s];
      dst[d] := L.Store(dst[d], dx, L.Masked(L.Load(src[s], sx)));
      Copying(k, now[d], dx, c, sx);
      assert dst[..] == now[d := P.Combined(k.op, k.bg, now[d], dx, c, sx)];
      NotHeld(t, i);
      P.ComeNext(t, now, from, c, i, j, d, dst[..], src[..]);
      dx := dx + 1;
      if dx % 2 == 0 {
        d := d + 1;
      }
      sx := sx + 1;
      if sx % 2 == 0 {
        s := s + 1;
      }
      i := i + 1;
    }
    P.ComeRow(t, dst[..], src[..], j);
  }

  lemma Copying(k: P.Copy, d: Byte, dx: nat, c: Byte, sx: nat)
    requires k.op == MWROP_COPY
    ensures P.Combined(k.op, k.bg, d, dx, c, sx) == L.Store(d, dx, L.Masked(L.Load(c, sx)))
  {
  }

  lemma NotHeld(t: P.Blitting, i: nat)
    requires !t.held
    ensures t.k.Fetched(t.held, i) == i
  {
  }
}
