/** Screens, their portrait modes, and the correspondence between virtual and physical pixels. */
module Screens {
  import opened Bits
  import opened Rows
  import opened Frames

  /** MWPORTRAIT_NONE, _LEFT, _RIGHT and _DOWN. */
  datatype Mode = Upright | Left | Right | Down {

    predicate Sideways() { Left? || Right? }

    // The mode that turns this one back
    function Back(): Mode {
      match this case Upright => Upright case Left => Right case Right => Left case Down => Down
    }
  }

  /** A virtual screen of xv x yv pixels, turned by a portrait mode. */
  datatype View = View(mode: Mode, xv: int, yv: int) {

    predicate On(x: int, y: int) { 0 <= x < xv && 0 <= y < yv }

    // The physical pixel on which virtual pixel (x, y) is drawn
    function X(x: int, y: int): int {
      match mode case Upright => x case Left => y case Right => yv - y - 1 case Down => xv - x - 1
    }

    function Y(x: int, y: int): int {
      match mode case Upright => y case Left => xv - x - 1 case Right => x case Down => yv - y - 1
    }

    // The physical screen, and the view of it that turns this one back
    function Back(): View {
      if mode.Sideways() then View(mode.Back(), yv, xv) else View(mode, xv, yv)
    }

    // Every physical pixel shows exactly one virtual pixel
    lemma Bijective(x: int, y: int, px: int, py: int)
      ensures On(x, y) <==> Back().On(X(x, y), Y(x, y))
      ensures X(x, y) == px && Y(x, y) == py <==> x == Back().X(px, py) && y == Back().Y(px, py)
    {
    }

    // A framebuffer of the size of the physical screen
    predicate Of(f: Frame) {
      if mode.Sideways() then f.cols == yv && f.rows == xv else f.cols == xv && f.rows == yv
    }

    lemma OnFrame(f: Frame, x: int, y: int)
      requires Of(f)
      ensures On(x, y) <==> f.In(X(x, y), Y(x, y))
    {
    }

    // Virtual pixel (x, y)
    ghost function Seen(f: Frame, x: int, y: int): (p: seq<Byte>)
      requires f.Valid() && Of(f) && On(x, y)
      ensures |p| == f.n
    {
      f.At(X(x, y), Y(x, y))
    }
  }

  // The bits of a row of w pixels, and the bytes of a pixel; an 18-bit pixel takes three bytes
  function RowSize(depth: nat, w: nat): nat {
    if depth == 1 then w else if depth == 2 then 2 * w else if depth == 4 then 4 * w else 8 * (BytesPerPixel(depth) * w)
  }

  function BytesPerPixel(depth: nat): nat {
    if depth == 32 then 4 else if depth == 24 || depth == 18 then 3 else if depth == 16 then 2 else 1
  }

  /** The switch of GdCalcMemGCAlloc. */
  method BytesPerLine(depth: nat, width: nat) returns (ok: bool, pitch: nat)
    ensures ok <==> depth in {1, 2, 4, 8, 16, 18, 24, 32}
    ensures ok ==> RowSize(depth, width) <= pitch * 8 < RowSize(depth, width) + 8
  {
    ok := true;
    match depth {
      case 1 => pitch := (width + 7) / 8;
      case 2 => pitch := (width + 3) / 4;
      case 4 => pitch := (width + 1) / 2;
      case 8 => pitch := width;
      case 16 => pitch := width * 2;
      case 18 => pitch := width * 3;
      case 24 => pitch := width * 3;
      case 32 => pitch := width * 4;
      case _ => ok, pitch := false, 0;
    }
  }

  lemma PitchHolds(depth: nat, w: nat, h: nat, raw: nat)
    requires depth in {1, 2, 4, 8, 16, 18, 24, 32} && RowSize(depth, w) <= raw * 8 < RowSize(depth, w) + 8
    ensures var pitch := (raw + 3) / 4 * 4;
      && pitch % 4 == 0 && pitch * 8 - 32 < RowSize(depth, w) <= pitch * 8
      && (depth >= 8 ==> forall bytes: seq<Byte> | |bytes| == pitch * h ::
           Frame(pitch, BytesPerPixel(depth), w, h, bytes).Valid())
  {
    RowIsProduct((raw + 3) / 4 * 4, h);
    RowIsProduct(BytesPerPixel(depth), w);
  }

  // A pixmap of w x h pixels has been sized: each row holds its pixels, padded to 32 bits
  ghost predicate Allocated(depth: nat, w: nat, h: nat, ok: bool, size: nat, pitch: nat) {
    if depth in {1, 2, 4, 8, 16, 18, 24, 32} then
      && ok && size == pitch * h && pitch % 4 == 0
      && pitch * 8 - 32 < RowSize(depth, w) <= pitch * 8
      && (depth >= 8 ==> forall bytes: seq<Byte> | |bytes| == size ::
            Frame(pitch, BytesPerPixel(depth), w, h, bytes).Valid())
    else !ok && size == 0 && pitch == 0
  }

  /** PSD: the fields of a screen device that drawing depends on. */
  class Psd {
    const xres: nat
    const yres: nat
    const planes: nat
    const bpp: nat
    const pitch: nat
    const addr: array<Byte>
    var xvirtres: int
    var yvirtres: int
    var portrait: Mode

    constructor (xres: nat, yres: nat, planes: nat, bpp: nat, pitch: nat, addr: array<Byte>)
      ensures this.xres == xres && this.yres == yres && this.planes == planes && this.bpp == bpp && this.pitch == pitch
          && this.addr == addr
      ensures Turned() && portrait == Upright
    {
      this.xres, this.yres, this.planes, this.bpp, this.pitch, this.addr := xres, yres, planes, bpp, pitch, addr;
      xvirtres, yvirtres, portrait := xres, yres, Upright;
    }

    // The virtual size is the physical one, turned as the portrait mode says
    predicate Turned()
      reads this
    {
      if portrait.Sideways() then xvirtres == yres && yvirtres == xres else xvirtres == xres && yvirtres == yres
    }

    ghost predicate Valid()
      reads this
    {
      Turned() && Row(1, xres) <= pitch && Row(pitch, yres) <= addr.Length
    }

    /** gen_setportrait */
    method SetPortrait(portraitmode: Mode)
      modifies this
      ensures Turned() && portrait == portraitmode
    {
      portrait := portraitmode;
      if portraitmode.Left? || portraitmode.Right? {
        xvirtres, yvirtres := yres, xres;
      } else {
        xvirtres, yvirtres := xres, yres;
      }
    }

    function Virtual(): View
      reads this
    {
      View(portrait, xvirtres, yvirtres)
    }

    /** GdCalcMemGCAlloc: the memory of a width x height pixmap for this screen, rows padded to 32 bits; a pixmap of a
        screen turned sideways is turned with it */
    method CalcMemGCAlloc(width: nat, height: nat, planes0: nat, bpp0: nat) returns (ok: bool, size: nat, pitch: nat)
      ensures var w, h := if portrait.Sideways() then height else width, if portrait.Sideways() then width else height;
        // four planes take 4 bits whatever is asked, and otherwise the screen's own depth is the default
        && (planes0 == 4 || (planes0 == 0 && planes == 4) ==> Allocated(4, w, h, ok, size, pitch))
        && (planes0 != 4 && (planes0 != 0 || planes != 4) && bpp0 != 0 ==> Allocated(bpp0, w, h, ok, size, pitch))
        && (planes0 != 4 && (planes0 != 0 || planes != 4) && bpp0 == 0 ==> Allocated(bpp, w, h, ok, size, pitch))
    {
      hide Row, Frame.Valid, RowSize, BytesPerPixel;
      var w, h := if portrait.Sideways() then height else width, if portrait.Sideways() then width else height;
      var p, depth := if planes0 == 0 then planes else planes0, if bpp0 == 0 then bpp else bpp0;
      if p == 4 {
        depth := 4;
      }
      ok, pitch := BytesPerLine(depth, w);
      if !ok {
        return false, 0, 0;
      }
      PitchHolds(depth, w, h, pitch);
      pitch := (pitch + 3) / 4 * 4;
      size := pitch * h;
    }

    // The memory of an 8bpp screen
    ghost function Screen(): Frame
      reads addr
    {
      Frame(pitch, 1, xres, yres, addr[..])
    }
  }

  /** Corners of a rectangle, both included. */
  datatype Box = Box(x1: int, y1: int, x2: int, y2: int) {
    predicate Has(x: int, y: int) { x1 <= x <= x2 && y1 <= y <= y2 }
  }
}
