/** Framebuffer to framebuffer blits (convblit_frameb.c). */
module FrameBlit {
  import opened Arithmetic
  import opened Bits
  import opened Rows
  import opened Rops
  import opened Frames
  import opened Screens

  // The rops that treat every bit of a pixel alike and know no background colour; above MWROP_MAX there are blending
  // ones
  predicate Bitwise(op: nat) {
    op <= MWROP_MAX && op !in {MWROP_XOR_FGBG, MWROP_SRC_OVER, MWROP_PORTERDUFF_XOR, MWROP_SRCTRANSCOPY}
  }

  const NO_BACKGROUND: Byte := Fill(8, false)

  // APPLYOP byte by byte
  function Blend(op: nat, s: seq<Byte>, d: seq<Byte>): (r: seq<Byte>)
    requires |s| == |d|
    ensures |r| == |d|
  {
    seq(|d|, b requires 0 <= b < |d| => ApplyOp(op, s[b], d[b], NO_BACKGROUND))
  }

  // A pixel as one machine word
  function Whole(p: seq<Byte>): (r: Bits)
    ensures |r| == 8 * |p|
  {
    if p == [] then [] else p[0] + Whole(p[1..])
  }

  lemma NoBackground(op: nat, a: bool, b: bool, bg: bool, bg': bool)
    requires Bitwise(op)
    ensures ApplyOp(op, [a], [b], [bg]) == ApplyOp(op, [a], [b], [bg'])
  {
  }

  lemma ApplyOpSplits(op: nat, s: Bits, s': Bits, d: Bits, d': Bits, bg: Bits, bg': Bits, none: Bits)
    requires Bitwise(op) && |s| == |d| == |bg| == |none| && |s'| == |d'| == |bg'|
    ensures ApplyOp(op, s + s', d + d', bg + bg') == ApplyOp(op, s, d, none) + ApplyOp(op, s', d', bg')
  {
    hide ApplyOp;
    var n := |d|;
    forall k | 0 <= k < n + |d'|
      ensures ApplyOp(op, s + s', d + d', bg + bg')[k] == (ApplyOp(op, s, d, none) + ApplyOp(op, s', d', bg'))[k]
    {
      ApplyOpPixel(op, s + s', d + d', bg + bg', k);
      if k < n {
        ApplyOpPixel(op, s, d, none, k);
        NoBackground(op, s[k], d[k], bg[k], none[k]);
      } else {
        ApplyOpPixel(op, s', d', bg', k - n);
      }
    }
  }

  // Blending the bytes is APPLYOP on the whole pixel, whatever the background
  lemma {:induction false} BlendIsApplyOp(op: nat, s: seq<Byte>, d: seq<Byte>, bg: Bits)
    requires Bitwise(op) && |s| == |d| && |bg| == 8 * |d|
    ensures Whole(Blend(op, s, d)) == ApplyOp(op, Whole(s), Whole(d), bg)
  {
    if d != [] {
      BlendIsApplyOp(op, s[1..], d[1..], bg[8..]);
      assert Blend(op, s, d)[1..] == Blend(op, s[1..], d[1..]);
      assert bg == bg[..8] + bg[8..];
      ApplyOpSplits(op, s[0], Whole(s[1..]), d[0], Whole(d[1..]), bg[..8], bg[8..], NO_BACKGROUND);
    }
  }

  /** A pair of walks of w x h pixels, one over the destination and one over the source, and what is to be
      drawn; `one` if both are over one buffer. */
  datatype Walks = Walks(op: nat, df: Frame, sf: Frame, dg: Grid, sg: Grid, w: int, h: int, one: bool) {

    ghost predicate Fits() {
      && df.Valid() && sf.Valid() && df.n == sf.n && dg.Square() && sg.Square()
      && dg.Within(df, w, h) && sg.Within(sf, w, h)
    }

    // The walk has come to (x, y) before it comes to column i of row j
    predicate Passed(i: int, j: int, x: int, y: int) {
      0 <= dg.I(x, y) < w && 0 <= dg.J(x, y) && (dg.J(x, y) < j || (dg.J(x, y) == j && dg.I(x, y) < i))
    }
  }

  type Job = k: Walks | k.Fits() ghost witness Walks(0, Frame(1, 1, 0, 0, []), Frame(1, 1, 0, 0, []),
      Grid(0, 0, East, South), Grid(0, 0, East, South), 0, 0, false)

  // Within one buffer, no source pixel is overwritten before it is read
  ghost predicate Ahead(k: Job) {
    forall i, j | 0 <= i < k.w && 0 <= j < k.h :: !k.Passed(i, j, k.sg.X(i, j), k.sg.Y(i, j))
  }

  // What pixel (x, y) of the destination is to become
  ghost function Target(k: Job, x: int, y: int): (v: seq<Byte>)
    requires k.df.In(x, y)
    ensures |v| == k.df.n
  {
    var i, j := k.dg.I(x, y), k.dg.J(x, y);
    if 0 <= i < k.w && 0 <= j < k.h then
      k.sg.Stays(k.sf, k.w, k.h, i, j);
      Blend(k.op, k.sf.At(k.sg.X(i, j), k.sg.Y(i, j)), k.df.At(x, y))
    else k.df.At(x, y)
  }

  // The walk has done all pixels before column i of row j
  ghost predicate Walked(k: Job, i: int, j: int, bytes: seq<Byte>) {
    var now := k.df.(bytes := bytes);
    && k.df.SamePadding(now)
    && forall x, y | k.df.In(x, y) :: now.At(x, y) == if k.Passed(i, j, x, y) then Target(k, x, y) else k.df.At(x, y)
  }

  // The walk reads the same source pixel as it would have at its start
  lemma SourceIntact(k: Job, i: int, j: int, bytes: seq<Byte>, from: seq<Byte>)
    requires 0 <= i < k.w && 0 <= j < k.h && Walked(k, i, j, bytes)
    requires if k.one then from == bytes && k.sf == k.df && Ahead(k) else from == k.sf.bytes
    ensures k.sf.In(k.sg.X(i, j), k.sg.Y(i, j)) && |from| == |k.sf.bytes|
    ensures k.sf.(bytes := from).At(k.sg.X(i, j), k.sg.Y(i, j)) == k.sf.At(k.sg.X(i, j), k.sg.Y(i, j))
  {
    k.sg.Stays(k.sf, k.w, k.h, i, j);
    if k.one {
      assert !k.Passed(i, j, k.sg.X(i, j), k.sg.Y(i, j));
    }
  }

  lemma TargetOf(k: Job, i: int, j: int)
    requires 0 <= i < k.w && 0 <= j < k.h
    ensures k.df.In(k.dg.X(i, j), k.dg.Y(i, j)) && k.sf.In(k.sg.X(i, j), k.sg.Y(i, j))
    ensures Target(k, k.dg.X(i, j), k.dg.Y(i, j))
      == Blend(k.op, k.sf.At(k.sg.X(i, j), k.sg.Y(i, j)), k.df.At(k.dg.X(i, j), k.dg.Y(i, j)))
  {
    k.dg.Stays(k.df, k.w, k.h, i, j);
    k.sg.Stays(k.sf, k.w, k.h, i, j);
    k.dg.Inverse(i, j, k.dg.X(i, j), k.dg.Y(i, j));
  }

  // Coming to (x0, y0) is all that happens from column i to column i+1
  lemma PassedNext(k: Job, i: int, j: int, x: int, y: int)
    requires 0 <= i < k.w && 0 <= j
    ensures k.Passed(i + 1, j, x, y) == (k.Passed(i, j, x, y) || (x == k.dg.X(i, j) && y == k.dg.Y(i, j)))
    ensures !k.Passed(i, j, k.dg.X(i, j), k.dg.Y(i, j))
  {
    k.dg.Inverse(i, j, x, y);
    k.dg.Inverse(i, j, k.dg.X(i, j), k.dg.Y(i, j));
  }

  lemma WalkedOne(k: Job, i: int, j: int, bytes: seq<Byte>, x0: int, y0: int)
    requires 0 <= i < k.w && 0 <= j < k.h && x0 == k.dg.X(i, j) && y0 == k.dg.Y(i, j)
    requires Walked(k, i, j, bytes)
    ensures k.df.In(x0, y0) && k.df.Addr(x0, y0) + k.df.n <= |bytes|
    ensures Walked(k, i + 1, j, Spliced(bytes, k.df.Addr(x0, y0), Target(k, x0, y0)))
  {
    hide Row, Spliced, Target, Grid.X, Grid.Y;
    k.dg.Stays(k.df, k.w, k.h, i, j);
    var now, v := k.df.(bytes := bytes), Target(k, x0, y0);
    now.PaddingAfterPut(x0, y0, v);
    var after := k.df.(bytes := Spliced(bytes, k.df.Addr(x0, y0), v));
    k.df.PaddingChain(now, after);
    forall x, y | k.df.In(x, y)
      ensures after.At(x, y) == if k.Passed(i + 1, j, x, y) then Target(k, x, y) else k.df.At(x, y)
    {
      PixelWalked(k, i, j, now, x0, y0, after, x, y);
    }
  }

  lemma PixelWalked(k: Job, i: int, j: int, now: Frame, x0: int, y0: int, after: Frame, x: int, y: int)
    requires 0 <= i < k.w && 0 <= j < k.h && x0 == k.dg.X(i, j) && y0 == k.dg.Y(i, j)
    requires k.df.In(x0, y0) && k.df.In(x, y) && now.Valid() && k.df.SameShape(now)
    requires now.Addr(x0, y0) + now.n <= |now.bytes|
        && after == now.(bytes := Spliced(now.bytes, now.Addr(x0, y0), Target(k, x0, y0)))
    requires now.At(x, y) == if k.Passed(i, j, x, y) then Target(k, x, y) else k.df.At(x, y)
    ensures after.Valid() && after.At(x, y) == if k.Passed(i + 1, j, x, y) then Target(k, x, y) else k.df.At(x, y)
  {
    hide Row, Spliced, Target, Grid.X, Grid.Y, Frame.At, Frame.Addr, Walks.Passed;
    now.AtAfterPut(x0, y0, Target(k, x0, y0), x, y);
    PassedNext(k, i, j, x, y);
  }

  lemma WalkedRow(k: Job, i: int, j: int, bytes: seq<Byte>)
    requires Walked(k, i, j, bytes) && j >= 0 && (i == k.w || k.w <= i == 0)
    ensures Walked(k, 0, j + 1, bytes)
  {
    forall x, y | k.df.In(x, y) ensures k.Passed(i, j, x, y) == k.Passed(0, j + 1, x, y) {
    }
  }

  // The pointers d and s stand on column i of row j
  ghost predicate Points(k: Job, i: int, j: int, d: int, s: int) {
    0 <= i < k.w && 0 <= j < k.h ==>
      && k.df.In(k.dg.X(i, j), k.dg.Y(i, j)) && d == k.df.Addr(k.dg.X(i, j), k.dg.Y(i, j))
      && k.sf.In(k.sg.X(i, j), k.sg.Y(i, j)) && s == k.sf.Addr(k.sg.X(i, j), k.sg.Y(i, j))
  }

  lemma PointsAcross(k: Job, i: int, j: int, d: int, s: int)
    requires Points(k, i, j, d, s) && 0 <= i < k.w && 0 <= j < k.h
    ensures Points(k, i + 1, j, d + k.dg.across.Step(k.df.n, k.df.pitch), s + k.sg.across.Step(k.sf.n, k.sf.pitch))
  {
    if i + 1 < k.w {
      k.dg.Stays(k.df, k.w, k.h, i + 1, j);
      k.sg.Stays(k.sf, k.w, k.h, i + 1, j);
      k.dg.StepAcross(k.df, i, j);
      k.sg.StepAcross(k.sf, i, j);
    }
  }

  lemma PointsDown(k: Job, j: int, d: int, s: int)
    requires Points(k, 0, j, d, s) && 0 <= j < k.h
    ensures Points(k, 0, j + 1, d + k.dg.down.Step(k.df.n, k.df.pitch), s + k.sg.down.Step(k.sf.n, k.sf.pitch))
  {
    if j + 1 < k.h && k.w > 0 {
      k.dg.Stays(k.df, k.w, k.h, 0, j + 1);
      k.sg.Stays(k.sf, k.w, k.h, 0, j + 1);
      k.dg.StepDown(k.df, 0, j);
      k.sg.StepDown(k.sf, 0, j);
    }
  }

  // In one buffer, the pixel read and the pixel written are the same or apart
  lemma SameOrApart(k: Job, i: int, j: int, d: int, s: int)
    requires Points(k, i, j, d, s) && 0 <= i < k.w && 0 <= j < k.h
    ensures 0 <= d && d + k.df.n <= |k.df.bytes| && 0 <= s && s + k.df.n <= |k.sf.bytes|
    ensures k.one && k.sf == k.df ==> s == d || s + k.df.n <= d || d + k.df.n <= s
  {
    var x, y, sx, sy := k.dg.X(i, j), k.dg.Y(i, j), k.sg.X(i, j), k.sg.Y(i, j);
    k.df.AddrIn(x, y);
    k.sf.AddrIn(sx, sy);
    if k.one && k.sf == k.df && (x != sx || y != sy) {
      k.df.AddrApart(x, y, sx, sy);
    }
  }

  // Reading the source pixel and the destination pixel through the pointers
  lemma PixelRead(k: Job, i: int, j: int, d: int, s: int, bytes: seq<Byte>, from: seq<Byte>)
    requires Points(k, i, j, d, s) && 0 <= i < k.w && 0 <= j < k.h
    requires |bytes| == |k.df.bytes| && |from| == |k.sf.bytes|
    ensures k.df.In(k.dg.X(i, j), k.dg.Y(i, j)) && k.sf.In(k.sg.X(i, j), k.sg.Y(i, j))
    ensures d == k.df.Addr(k.dg.X(i, j), k.dg.Y(i, j))
    ensures 0 <= d && d + k.df.n <= |bytes| && 0 <= s && s + k.df.n <= |from|
    ensures bytes[d..d + k.df.n] == k.df.(bytes := bytes).At(k.dg.X(i, j), k.dg.Y(i, j))
    ensures from[s..s + k.df.n] == k.sf.(bytes := from).At(k.sg.X(i, j), k.sg.Y(i, j))
  {
    SameOrApart(k, i, j, d, s);
  }

  lemma DestinationIntact(k: Job, i: int, j: int, bytes: seq<Byte>)
    requires 0 <= i < k.w && 0 <= j < k.h && Walked(k, i, j, bytes)
    ensures k.df.In(k.dg.X(i, j), k.dg.Y(i, j)) && |bytes| == |k.df.bytes|
    ensures k.df.(bytes := bytes).At(k.dg.X(i, j), k.dg.Y(i, j)) == k.df.At(k.dg.X(i, j), k.dg.Y(i, j))
  {
    k.dg.Stays(k.df, k.w, k.h, i, j);
    PassedNext(k, i, j, k.dg.X(i, j), k.dg.Y(i, j));
  }

  // One pixel drawn at the pointers takes the walk one column on
  lemma PixelDone(k: Job, i: int, j: int, d: int, s: int, bytes: seq<Byte>, from: seq<Byte>, after: seq<Byte>)
    requires Points(k, i, j, d, s) && 0 <= i < k.w && 0 <= j < k.h && Walked(k, i, j, bytes)
    requires if k.one then from == bytes && k.sf == k.df && Ahead(k) else from == k.sf.bytes
    requires 0 <= d && d + k.df.n <= |bytes| && 0 <= s && s + k.df.n <= |from|
    requires after == Spliced(bytes, d, Blend(k.op, from[s..s + k.df.n], bytes[d..d + k.df.n]))
    ensures Walked(k, i + 1, j, after)
  {
    hide *;
    DestinationIntact(k, i, j, bytes);
    SourceIntact(k, i, j, bytes, from);
    PixelRead(k, i, j, d, s, bytes, from);
    TargetOf(k, i, j);
    WalkedOne(k, i, j, bytes, k.dg.X(i, j), k.dg.Y(i, j));
  }

  /** One pixel of n bytes: three single bytes, or one word of 1, 2 or 4 bytes. */
  method BlitPixel(op: nat, dst: array<Byte>, d: nat, src: array<Byte>, s: nat, n: nat)
    requires 1 <= n <= 4 && d + n <= dst.Length && s + n <= src.Length
    requires dst == src ==> s == d || s + n <= d || d + n <= s
    modifies dst
    ensures dst[..] == Spliced(old(dst[..]), d, Blend(op, old(src[..])[s..s + n], old(dst[..])[d..d + n]))
  {
    hide ApplyOp;
    ghost var bytes, v := dst[..], Blend(op, src[..][s..s + n], dst[..][d..d + n]);
    if n == 3 {
      assert forall b | 0 <= b < 3 :: v[b] == ApplyOp(op, src[s + b], dst[d + b], NO_BACKGROUND);
      dst[d] := ApplyOp(op, src[s], dst[d], NO_BACKGROUND);
      dst[d + 1] := ApplyOp(op, src[s + 1], dst[d + 1], NO_BACKGROUND);
      dst[d + 2] := ApplyOp(op, src[s + 2], dst[d + 2], NO_BACKGROUND);
      assert dst[..] == bytes[d := v[0]][d + 1 := v[1]][d + 2 := v[2]];
      ThreeBytes(bytes, d, v);
    } else {
      var word := Blend(op, src[s..s + n], dst[d..d + n]);
      assert word == v by {
        assert src[s..s + n] == src[..][s..s + n] && dst[d..d + n] == dst[..][d..d + n];
      }
      forall b | d <= b < d + n {
        dst[b] := word[b - d];
      }
      assert dst[..] == bytes[..d] + v + bytes[d + n..];
    }
  }

  lemma ThreeBytes(bytes: seq<Byte>, d: nat, v: seq<Byte>)
    requires |v| == 3 && d + 3 <= |bytes|
    ensures bytes[d := v[0]][d + 1 := v[1]][d + 2 := v[2]] == Spliced(bytes, d, v)
  {
  }

  lemma WalkStarts(k: Job)
    ensures Walked(k, 0, 0, k.df.bytes)
  {
  }

  lemma WalkEnds(k: Job, j: int, bytes: seq<Byte>)
    requires Walked(k, 0, j, bytes) && (j == k.h || k.h <= j == 0)
    ensures k.df.SamePadding(k.df.(bytes := bytes))
    ensures forall x, y | k.df.In(x, y) ::
      k.df.(bytes := bytes).Valid() && k.df.(bytes := bytes).At(x, y) == Target(k, x, y)
  {
    forall x, y | k.df.In(x, y) ensures k.df.(bytes := bytes).At(x, y) == Target(k, x, y) {
      assert k.df.(bytes := bytes).At(x, y) == if k.Passed(0, j, x, y) then Target(k, x, y) else k.df.At(x, y);
    }
  }

  /** The inner loop: one row of pixels. */
  method BlitRow(ghost k: Job, ghost j: int, op: nat, dst: array<Byte>, src: array<Byte>, n: nat, width: int, d0: int,
                 s0: int, dsz: int, ssz: int)
    requires op == k.op && 1 <= n == k.df.n == k.sf.n <= 4 && width == k.w && 0 <= j < k.h
    requires dst.Length == |k.df.bytes| && src.Length == |k.sf.bytes| && k.one == (dst == src)
    requires if k.one then k.sf == k.df && Ahead(k) else src[..] == k.sf.bytes
    requires dsz == k.dg.across.Step(n, k.df.pitch) && ssz == k.sg.across.Step(n, k.sf.pitch)
    requires Points(k, 0, j, d0, s0) && Walked(k, 0, j, dst[..])
    modifies dst
    ensures Walked(k, 0, j + 1, dst[..])
  {
    hide *;
    var d, s, w := d0, s0, width;
    ghost var i := 0;
    while w > 0
      invariant i + w == width && (w >= 0 || i == 0) && 0 <= i
      invariant dst != src ==> src[..] == k.sf.bytes
      invariant Points(k, i, j, d, s)
      invariant Walked(k, i, j, dst[..])
    {
      ghost var bytes, from := dst[..], src[..];
      SameOrApart(k, i, j, d, s);
      BlitPixel(op, dst, d, src, s, n);
      PixelDone(k, i, j, d, s, bytes, from, dst[..]);
      PointsAcross(k, i, j, d, s);
      w, d, s, i := w - 1, d + dsz, s + ssz, i + 1;
    }
    WalkedRow(k, i, j, dst[..]);
  }

  /** The outer loop: rows of pixels. */
  method BlitRows(ghost k: Job, op: nat, dst: array<Byte>, src: array<Byte>, n: nat, width: int, height: int, d0: int,
                  s0: int, dsz: int, ssz: int, dstPitch: int, srcPitch: int)
    requires op == k.op && 1 <= n == k.df.n == k.sf.n <= 4 && width == k.w && height == k.h
    requires dst[..] == k.df.bytes && src[..] == k.sf.bytes && k.one == (dst == src)
    requires k.one ==> k.sf == k.df && Ahead(k)
    requires dsz == k.dg.across.Step(n, k.df.pitch) && ssz == k.sg.across.Step(n, k.sf.pitch)
    requires dstPitch == k.dg.down.Step(n, k.df.pitch) && srcPitch == k.sg.down.Step(n, k.sf.pitch)
    requires Points(k, 0, 0, d0, s0)
    modifies dst
    ensures forall x, y | k.df.In(x, y) ::
      k.df.(bytes := dst[..]).Valid() && k.df.(bytes := dst[..]).At(x, y) == Target(k, x, y)
    ensures k.df.SamePadding(k.df.(bytes := dst[..]))
  {
    hide *;
    var d, s, h := d0, s0, height;
    ghost var j := 0;
    WalkStarts(k);
    while h > 0
      invariant j + h == height && (h >= 0 || j == 0) && 0 <= j
      invariant dst != src ==> src[..] == k.sf.bytes
      invariant Points(k, 0, j, d, s)
      invariant Walked(k, 0, j, dst[..])
    {
      BlitRow(k, j, op, dst, src, n, width, d, s, dsz, ssz);
      PointsDown(k, j, d, s);
      h, d, s, j := h - 1, d + dstPitch, s + srcPitch, j + 1;
    }
    WalkEnds(k, j, dst[..]);
  }

  /** The rectangle of a blit, in the coordinates of two screens. */
  datatype Request = Request(w: int, h: int, dstx: int, dsty: int, srcx: int, srcy: int) {

    // The destination rectangle has (x, y)
    predicate Has(x: int, y: int) { dstx <= x < dstx + w && dsty <= y < dsty + h }

    // Both rectangles are on their screens
    predicate On(dv: View, sv: View) {
      w > 0 && h > 0 ==>
        && dv.On(dstx, dsty) && dv.On(dstx + w - 1, dsty + h - 1)
        && sv.On(srcx, srcy) && sv.On(srcx + w - 1, srcy + h - 1)
    }

    // FRAMEBLIT_ROTATE_COORDS: the physical rectangles that show these
    function Turned(dv: View, sv: View): Request {
      match dv.mode
      case Upright => this
      case Left => Request(h, w, dsty, dv.xv - dstx - w, srcy, sv.xv - srcx - w)
      case Right => Request(h, w, dv.yv - dsty - h, dstx, sv.yv - srcy - h, srcx)
      case Down => Request(w, h, dv.xv - dstx - w, dv.yv - dsty - h, sv.xv - srcx - w, sv.yv - srcy - h)
    }
  }

  // The rectangles that the rotation gives are the images of the virtual ones, pixel by pixel
  lemma TurnedIsImage(r: Request, dv: View, sv: View, x: int, y: int)
    requires dv.mode == sv.mode
    ensures var t := r.Turned(dv, sv); var px, py := dv.X(x, y), dv.Y(x, y);
      && t.Has(px, py) == r.Has(x, y)
      && px - t.dstx + t.srcx == sv.X(x - r.dstx + r.srcx, y - r.dsty + r.srcy)
      && py - t.dsty + t.srcy == sv.Y(x - r.dstx + r.srcx, y - r.dsty + r.srcy)
  {
  }

  // The walk over a rectangle of the physical screen, from the end that is safe if it is one buffer
  function FrameGrids(t: Request, one: bool): (Grid, Grid) {
    var left, up := one && t.srcx < t.dstx, one && t.srcy < t.dsty;
    var across, down := if left then West else East, if up then North else South;
    var dx, dy := if left then t.w - 1 else 0, if up then t.h - 1 else 0;
    (Grid(t.dstx + dx, t.dsty + dy, across, down), Grid(t.srcx + dx, t.srcy + dy, across, down))
  }

  lemma FrameGridsCover(t: Request, one: bool, dg: Grid, sg: Grid, x: int, y: int)
    requires (dg, sg) == FrameGrids(t, one)
    ensures var i, j := dg.I(x, y), dg.J(x, y);
      && (0 <= i < t.w && 0 <= j < t.h <==> t.Has(x, y))
      && sg.X(i, j) == x - t.dstx + t.srcx && sg.Y(i, j) == y - t.dsty + t.srcy
  {
  }

  // No source pixel is overwritten before it is read
  lemma FrameAhead(t: Request, k: Job)
    requires (k.dg, k.sg) == FrameGrids(t, true) && k.w == t.w && k.h == t.h
    ensures Ahead(k)
  {
  }

  // CONVBLIT_ROTATE_COORDS: the walk over a virtual rectangle of the destination, the source being upright
  function ConvGrids(r: Request, dv: View): (Grid, Grid) {
    var x0, y0 := dv.X(r.dstx, r.dsty), dv.Y(r.dstx, r.dsty);
    (match dv.mode
     case Upright => Grid(x0, y0, East, South)
     case Left => Grid(x0, y0, North, East)
     case Right => Grid(x0, y0, South, West)
     case Down => Grid(x0, y0, West, North),
     Grid(r.srcx, r.srcy, East, South))
  }

  // What virtual pixel (x, y) is to become
  ghost function Blitted(op: nat, r: Request, df: Frame, dv: View, sf: Frame, sv: View, x: int, y: int): seq<Byte>
    requires df.Valid() && sf.Valid() && df.n == sf.n && dv.Of(df) && sv.Of(sf) && r.On(dv, sv) && dv.On(x, y)
  {
    if r.Has(x, y) then
      Blend(op, sv.Seen(sf, x - r.dstx + r.srcx, y - r.dsty + r.srcy), dv.Seen(df, x, y))
    else dv.Seen(df, x, y)
  }

  ghost predicate BlitDone(op: nat, r: Request, df: Frame, dv: View, sf: Frame, sv: View, after: Frame)
    requires df.Valid() && sf.Valid() && df.n == sf.n && dv.Of(df) && sv.Of(sf) && r.On(dv, sv)
  {
    && df.SamePadding(after)
    && forall x, y | dv.On(x, y) :: dv.Seen(after, x, y) == Blitted(op, r, df, dv, sf, sv, x, y)
  }

  // Between screens turned alike, walking over the physical rectangles is the virtual blit
  lemma FrameTarget(k: Job, r: Request, dv: View, sv: View, x: int, y: int)
    requires dv.mode == sv.mode && dv.Of(k.df) && sv.Of(k.sf) && r.On(dv, sv) && dv.On(x, y)
    requires var t := r.Turned(dv, sv); (k.dg, k.sg) == FrameGrids(t, k.one) && k.w == t.w && k.h == t.h
    ensures k.df.In(dv.X(x, y), dv.Y(x, y))
    ensures Target(k, dv.X(x, y), dv.Y(x, y)) == Blitted(k.op, r, k.df, dv, k.sf, sv, x, y)
  {
    hide Target, Blend, Frame.At, FrameGrids, Grid.I, Grid.J, Grid.X, Grid.Y;
    dv.OnFrame(k.df, x, y);
    TurnedIsImage(r, dv, sv, x, y);
    FrameGridsCover(r.Turned(dv, sv), k.one, k.dg, k.sg, dv.X(x, y), dv.Y(x, y));
    TargetIs(k, dv.X(x, y), dv.Y(x, y), r.Has(x, y), sv.X(x - r.dstx + r.srcx, y - r.dsty + r.srcy),
        sv.Y(x - r.dstx + r.srcx, y - r.dsty + r.srcy));
  }

  lemma TargetIs(k: Job, px: int, py: int, inside: bool, sx: int, sy: int)
    requires k.df.In(px, py)
    requires var i, j := k.dg.I(px, py), k.dg.J(px, py);
      inside == (0 <= i < k.w && 0 <= j < k.h) && sx == k.sg.X(i, j) && sy == k.sg.Y(i, j)
    ensures inside ==> k.sf.In(sx, sy)
    ensures Target(k, px, py) == if inside then Blend(k.op, k.sf.At(sx, sy), k.df.At(px, py)) else k.df.At(px, py)
  {
    if inside {
      k.sg.Stays(k.sf, k.w, k.h, k.dg.I(px, py), k.dg.J(px, py));
    }
  }

  // From an upright source, walking over the turned rectangle is the virtual blit
  lemma ConvTarget(k: Job, r: Request, dv: View, sv: View, x: int, y: int)
    requires sv.mode.Upright? && dv.Of(k.df) && sv.Of(k.sf) && r.On(dv, sv) && dv.On(x, y)
    requires (k.dg, k.sg) == ConvGrids(r, dv) && k.w == r.w && k.h == r.h
    ensures k.df.In(dv.X(x, y), dv.Y(x, y))
    ensures Target(k, dv.X(x, y), dv.Y(x, y)) == Blitted(k.op, r, k.df, dv, k.sf, sv, x, y)
  {
    dv.OnFrame(k.df, x, y);
  }

  // The frames, views and rectangle of a blit that stays inside its buffers
  ghost predicate Sound(r: Request, df: Frame, dv: View, sf: Frame, sv: View) {
    && df.Valid() && sf.Valid() && 1 <= df.n == sf.n <= 4 && dv.Of(df) && sv.Of(sf) && r.On(dv, sv)
    && (dv.mode == sv.mode || sv.mode.Upright?)
  }

  lemma TurnedOn(r: Request, df: Frame, dv: View, sf: Frame, sv: View)
    requires Sound(r, df, dv, sf, sv) && dv.mode == sv.mode
    ensures var t := r.Turned(dv, sv); t.w > 0 && t.h > 0 ==>
      && df.In(t.dstx, t.dsty) && df.In(t.dstx + t.w - 1, t.dsty + t.h - 1)
      && sf.In(t.srcx, t.srcy) && sf.In(t.srcx + t.w - 1, t.srcy + t.h - 1)
  {
  }

  lemma FrameFits(t: Request, df: Frame, sf: Frame, one: bool, dg: Grid, sg: Grid)
    requires t.w > 0 && t.h > 0 ==>
      && df.In(t.dstx, t.dsty) && df.In(t.dstx + t.w - 1, t.dsty + t.h - 1)
      && sf.In(t.srcx, t.srcy) && sf.In(t.srcx + t.w - 1, t.srcy + t.h - 1)
    requires (dg, sg) == FrameGrids(t, one)
    ensures dg.Square() && sg.Square() && dg.Within(df, t.w, t.h) && sg.Within(sf, t.w, t.h)
  {
  }

  lemma ConvFits(r: Request, df: Frame, dv: View, sf: Frame, sv: View, dg: Grid, sg: Grid)
    requires Sound(r, df, dv, sf, sv) && dv.mode != sv.mode && (dg, sg) == ConvGrids(r, dv)
    ensures dg.Square() && sg.Square() && dg.Within(df, r.w, r.h) && sg.Within(sf, r.w, r.h)
  {
  }

  // The job of a blit: between screens turned alike, or from an upright one
  ghost function JobOf(op: nat, r: Request, df: Frame, dv: View, sf: Frame, sv: View, one: bool): (k: Job)
    requires Sound(r, df, dv, sf, sv)
    ensures k.op == op && k.df == df && k.sf == sf && k.one == one
    ensures dv.mode == sv.mode ==>
              var t := r.Turned(dv, sv); (k.dg, k.sg) == FrameGrids(t, one) && k.w == t.w && k.h == t.h
    ensures dv.mode != sv.mode ==> (k.dg, k.sg) == ConvGrids(r, dv) && k.w == r.w && k.h == r.h
  {
    if dv.mode == sv.mode then
      var t := r.Turned(dv, sv);
      var (dg, sg) := FrameGrids(t, one);
      TurnedOn(r, df, dv, sf, sv);
      FrameFits(t, df, sf, one, dg, sg);
      Walks(op, df, sf, dg, sg, t.w, t.h, one)
    else
      var (dg, sg) := ConvGrids(r, dv);
      ConvFits(r, df, dv, sf, sv, dg, sg);
      Walks(op, df, sf, dg, sg, r.w, r.h, one)
  }

  lemma JobDone(op: nat, r: Request, df: Frame, dv: View, sf: Frame, sv: View, one: bool, after: Frame)
    requires Sound(r, df, dv, sf, sv) && df.SamePadding(after)
    requires forall x, y | df.In(x, y) ::
      after.Valid() && after.At(x, y) == Target(JobOf(op, r, df, dv, sf, sv, one), x, y)
    ensures BlitDone(op, r, df, dv, sf, sv, after)
  {
    var k := JobOf(op, r, df, dv, sf, sv, one);
    forall x, y | dv.On(x, y) ensures dv.Seen(after, x, y) == Blitted(op, r, df, dv, sf, sv, x, y) {
      if dv.mode == sv.mode {
        FrameTarget(k, r, dv, sv, x, y);
      } else {
        ConvTarget(k, r, dv, sv, x, y);
      }
    }
  }

  // The byte at which pixel (x, y) starts, as the code computes it
  lemma AddrIsProduct(f: Frame, x: nat, y: nat)
    ensures f.Addr(x, y) == y * f.pitch + x * f.n
  {
    RowIsProduct(f.pitch, y);
    RowIsProduct(f.n, x);
  }

  lemma StartOf(f: Frame, x: int, y: int, i: int, j: int)
    requires 0 <= x + i && 0 <= y + j
    ensures f.Addr(x + i, y + j) == y * f.pitch + x * f.n + j * f.pitch + i * f.n
  {
    AddrIsProduct(f, x + i, y + j);
    Distribute(y, j, f.pitch);
    Distribute(x, i, f.n);
  }

  lemma FramePoints(k: Job, t: Request, d: int, s: int)
    requires (k.dg, k.sg) == FrameGrids(t, k.one) && k.w == t.w && k.h == t.h
    requires var j, i := if k.one && t.srcy < t.dsty then t.h - 1 else 0,
                         if k.one && t.srcx < t.dstx then t.w - 1 else 0;
      && d == t.dsty * k.df.pitch + t.dstx * k.df.n + j * k.df.pitch + i * k.df.n
      && s == t.srcy * k.sf.pitch + t.srcx * k.sf.n + j * k.sf.pitch + i * k.sf.n
    ensures Points(k, 0, 0, d, s)
  {
    if k.w > 0 && k.h > 0 {
      var j, i := if k.one && t.srcy < t.dsty then t.h - 1 else 0, if k.one && t.srcx < t.dstx then t.w - 1 else 0;
      k.dg.Stays(k.df, k.w, k.h, 0, 0);
      k.sg.Stays(k.sf, k.w, k.h, 0, 0);
      assert k.dg.x0 == t.dstx + i && k.dg.y0 == t.dsty + j && k.sg.x0 == t.srcx + i && k.sg.y0 == t.srcy + j;
      StartOf(k.df, t.dstx, t.dsty, i, j);
      StartOf(k.sf, t.srcx, t.srcy, i, j);
    }
  }

  lemma ConvPoints(k: Job, r: Request, dv: View, d: int, s: int)
    requires (k.dg, k.sg) == ConvGrids(r, dv) && k.w == r.w && k.h == r.h
    requires d == k.dg.y0 * k.df.pitch + k.dg.x0 * k.df.n && s == r.srcy * k.sf.pitch + r.srcx * k.sf.n
    ensures Points(k, 0, 0, d, s)
  {
    if k.w > 0 && k.h > 0 {
      k.dg.Stays(k.df, k.w, k.h, 0, 0);
      k.sg.Stays(k.sf, k.w, k.h, 0, 0);
      AddrIsProduct(k.df, k.dg.x0, k.dg.y0);
      AddrIsProduct(k.sf, k.sg.x0, k.sg.y0);
    }
  }

  /** MWBLITPARMS: the parameters of a blit. */
  class BlitParms {
    var op: nat
    var width: int
    var height: int
    var dstx: int
    var dsty: int
    var srcx: int
    var srcy: int
    const srcPitch: nat
    const dstPitch: nat
    const data: array<Byte>
    const dataOut: array<Byte>
    const srcXvirtres: nat
    const srcYvirtres: nat
    const srcportrait: Mode   // gc->srcpsd->portrait

    constructor (op: nat, width: int, height: int, dstx: int, dsty: int, srcx: int, srcy: int, srcPitch: nat,
                 dstPitch: nat, data: array<Byte>, dataOut: array<Byte>, srcXvirtres: nat, srcYvirtres: nat,
                 srcportrait: Mode)
      ensures this.op == op && Rect() == Request(width, height, dstx, dsty, srcx, srcy)
      ensures this.srcPitch == srcPitch && this.dstPitch == dstPitch && this.data == data && this.dataOut == dataOut
      ensures Source() == View(srcportrait, srcXvirtres, srcYvirtres)
    {
      this.op, this.width, this.height := op, width, height;
      this.dstx, this.dsty, this.srcx, this.srcy := dstx, dsty, srcx, srcy;
      this.srcPitch, this.dstPitch, this.data, this.dataOut := srcPitch, dstPitch, data, dataOut;
      this.srcXvirtres, this.srcYvirtres, this.srcportrait := srcXvirtres, srcYvirtres, srcportrait;
    }

    function Rect(): Request
      reads this
    {
      Request(width, height, dstx, dsty, srcx, srcy)
    }

    function Source(): View {
      View(srcportrait, srcXvirtres, srcYvirtres)
    }

    ghost function From(n: nat): Frame
      reads data
    {
      if srcportrait.Sideways() then Frame(srcPitch, n, srcYvirtres, srcXvirtres, data[..])
      else Frame(srcPitch, n, srcXvirtres, srcYvirtres, data[..])
    }

    ghost function To(psd: Psd, n: nat): Frame
      reads dataOut
    {
      Frame(dstPitch, n, psd.xres, psd.yres, dataOut[..])
    }

    /** FRAMEBLIT_ROTATE_COORDS */
    method RotateFrame(psd: Psd)
      requires psd.portrait == srcportrait
      modifies this
      ensures Rect() == old(Rect()).Turned(psd.Virtual(), Source()) && op == old(op)
    {
      match psd.portrait {
        case Upright =>
        case Left =>
          var tmp := dsty;
          dsty := psd.xvirtres - dstx - width;
          dstx := tmp;
          tmp := srcy;
          srcy := srcXvirtres - srcx - width;
          srcx := tmp;
          tmp := width;
          width := height;
          height := tmp;
        case Right =>
          var tmp := dstx;
          dstx := psd.yvirtres - dsty - height;
          dsty := tmp;
          tmp := srcx;
          srcx := srcYvirtres - srcy - height;
          srcy := tmp;
          tmp := width;
          width := height;
          height := tmp;
        case Down =>
          dstx := psd.xvirtres - dstx - width;
          dsty := psd.yvirtres - dsty - height;
          srcx := srcXvirtres - srcx - width;
          srcy := srcYvirtres - srcy - height;
      }
    }

    /** CONVBLIT_ROTATE_COORDS */
    method RotateConv(psd: Psd, n: nat) returns (dsz: int, dpitch: int)
      modifies this
      ensures var dv, r := psd.Virtual(), old(Rect());
        Rect() == r.(dstx := dv.X(r.dstx, r.dsty), dsty := dv.Y(r.dstx, r.dsty))
      ensures op == old(op)
      ensures var g := ConvGrids(old(Rect()), psd.Virtual()).0;
        dsz == g.across.Step(n, dstPitch) && dpitch == g.down.Step(n, dstPitch)
    {
      match psd.portrait {
        case Upright =>
          dsz, dpitch := n, dstPitch;
        case Left =>
          var tmp := dsty;
          dsty := psd.xvirtres - dstx - 1;
          dstx := tmp;
          dsz, dpitch := 0 - dstPitch, n;
        case Right =>
          var tmp := dstx;
          dstx := psd.yvirtres - dsty - 1;
          dsty := tmp;
          dsz, dpitch := dstPitch, 0 - n;
        case Down =>
          dstx := psd.xvirtres - dstx - 1;
          dsty := psd.yvirtres - dsty - 1;
          dsz, dpitch := 0 - n, 0 - dstPitch;
      }
    }
  }

  // The operations that are no blending and know no background colour
  predicate Supported(op: nat, bpp: nat) {
    && op <= MWROP_MAX && op !in {MWROP_XOR_FGBG, MWROP_PORTERDUFF_XOR, MWROP_SRCTRANSCOPY}
    && (op == MWROP_SRC_OVER ==> bpp != 32)
  }

  // The operation that is left: compositing needs 32 bits a pixel
  function Effective(op: nat, bpp: nat): nat {
    if op == MWROP_SRC_OVER && bpp != 32 then MWROP_COPY else op
  }

  lemma EffectiveMeans(op: nat, bpp: nat, s: Bits, d: Bits, bg: Bits)
    requires Supported(op, bpp) && |s| == |d| == |bg|
    ensures Bitwise(Effective(op, bpp)) && ApplyOp(Effective(op, bpp), s, d, bg) == ApplyOp(op, s, d, bg)
  {
  }

  // v is pixel d combined with s, as whole machine words
  ghost predicate CombinedTo(op: nat, s: seq<Byte>, d: seq<Byte>, v: seq<Byte>)
    requires |s| == |d| == |v|
  {
    forall bg: Bits | |bg| == 8 * |d| :: Whole(v) == ApplyOp(op, Whole(s), Whole(d), bg)
  }

  // Each virtual pixel of the rectangle has been combined with its source pixel; no other byte has changed
  ghost predicate Combined(op: nat, r: Request, df: Frame, dv: View, sf: Frame, sv: View, after: Frame)
    requires df.Valid() && sf.Valid() && df.n == sf.n && dv.Of(df) && sv.Of(sf) && r.On(dv, sv)
  {
    && df.SamePadding(after)
    && forall x, y | dv.On(x, y) ::
         if r.Has(x, y)
         then CombinedTo(op, sv.Seen(sf, x - r.dstx + r.srcx, y - r.dsty + r.srcy), dv.Seen(df, x, y),
                         dv.Seen(after, x, y))
         else dv.Seen(after, x, y) == dv.Seen(df, x, y)
  }

  lemma DoneCombines(op: nat, bpp: nat, r: Request, df: Frame, dv: View, sf: Frame, sv: View, after: Frame)
    requires df.Valid() && sf.Valid() && df.n == sf.n && dv.Of(df) && sv.Of(sf) && r.On(dv, sv) && Supported(op, bpp)
    requires BlitDone(Effective(op, bpp), r, df, dv, sf, sv, after)
    ensures Combined(op, r, df, dv, sf, sv, after)
  {
    hide Blend, Whole, View.Seen, Effective, ApplyOp, Supported, Bitwise;
    forall x, y | dv.On(x, y) && r.Has(x, y)
      ensures CombinedTo(op, sv.Seen(sf, x - r.dstx + r.srcx, y - r.dsty + r.srcy), dv.Seen(df, x, y),
                         dv.Seen(after, x, y))
    {
      var s, d := sv.Seen(sf, x - r.dstx + r.srcx, y - r.dsty + r.srcy), dv.Seen(df, x, y);
      assert dv.Seen(after, x, y) == Blend(Effective(op, bpp), s, d);
      BlendCombines(op, bpp, s, d);
    }
  }

  lemma BlendCombines(op: nat, bpp: nat, s: seq<Byte>, d: seq<Byte>)
    requires |s| == |d| && Supported(op, bpp)
    ensures CombinedTo(op, s, d, Blend(Effective(op, bpp), s, d))
  {
    hide Blend, Whole, Effective, ApplyOp, Supported, Bitwise;
    forall bg: Bits | |bg| == 8 * |d|
      ensures Whole(Blend(Effective(op, bpp), s, d)) == ApplyOp(op, Whole(s), Whole(d), bg)
    {
      EffectiveMeans(op, bpp, Whole(s), Whole(d), bg);
      BlendIsApplyOp(Effective(op, bpp), s, d, bg);
    }
  }

  /** frameblit_blit, for pixels of n bytes */
  method FrameBlit(psd: Psd, gc: BlitParms, n: nat)
    requires psd.Turned() && Supported(gc.op, psd.bpp)
    requires Sound(gc.Rect(), gc.To(psd, n), psd.Virtual(), gc.From(n), gc.Source())
    requires gc.data == gc.dataOut ==> gc.From(n) == gc.To(psd, n) && psd.portrait == gc.srcportrait
    modifies gc, gc.dataOut
    ensures Combined(old(gc.op), old(gc.Rect()), old(gc.To(psd, n)), psd.Virtual(), old(gc.From(n)), gc.Source(),
        gc.To(psd, n))
  {
    ghost var r, df, dv, sf, sv := gc.Rect(), gc.To(psd, n), psd.Virtual(), gc.From(n), gc.Source();
    ghost var one := gc.data == gc.dataOut;
    ghost var k := JobOf(Effective(gc.op, psd.bpp), r, df, dv, sf, sv, one);
    var op := gc.op;
    var ssz, srcPitch := n as int, gc.srcPitch as int;
    var dsz, dstPitch := n as int, gc.dstPitch as int;
    if psd.portrait == gc.srcportrait {
      gc.RotateFrame(psd);
    } else {
      dsz, dstPitch := gc.RotateConv(psd, n);
    }
    var src := gc.srcy * gc.srcPitch + gc.srcx * n;
    var dst := gc.dsty * gc.dstPitch + gc.dstx * n;
    var width, height := gc.width, gc.height;
    if gc.data == gc.dataOut {
      if gc.srcy < gc.dsty {
        src := src + (height - 1) * gc.srcPitch;
        dst := dst + (height - 1) * gc.dstPitch;
        srcPitch, dstPitch := -srcPitch, -dstPitch;
      }
      if gc.srcx < gc.dstx {
        src := src + (width - 1) * n;
        dst := dst + (width - 1) * n;
        ssz, dsz := -ssz, -dsz;
      }
    }
    if op == MWROP_SRC_OVER && psd.bpp != 32 {
      op := MWROP_COPY;
    }
    if dv.mode == sv.mode {
      FramePoints(k, gc.Rect(), dst, src);
      if one {
        FrameAhead(gc.Rect(), k);
      }
    } else {
      ConvPoints(k, r, dv, dst, src);
    }
    BlitRows(k, op, gc.dataOut, gc.data, n, width, height, dst, src, dsz, ssz, dstPitch, srcPitch);
    JobDone(op, r, df, dv, sf, sv, one, gc.To(psd, n));
    DoneCombines(old(gc.op), psd.bpp, r, df, dv, sf, sv, gc.To(psd, n));
  }
}
