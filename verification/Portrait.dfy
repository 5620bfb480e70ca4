/** The portrait subdrivers (fbportrait_left.c, fbportrait_right.c, fbportrait_down.c) and gen_fillrect (genmem.c)
    over the 8bpp driver. */
module Portrait {
  import opened Bits
  import opened Frames
  import opened Rops
  import Rows
  import opened Screens
  import Linear8

  type Ink = Linear8.Ink

  // The physical rectangle that shows a virtual one
  function MapBox(v: View, b: Box): Box {
    match v.mode
    case Upright => b
    case Left => Box(b.y1, v.xv - b.x2 - 1, b.y2, v.xv - b.x1 - 1)
    case Right => Box(v.yv - b.y2 - 1, b.x1, v.yv - b.y1 - 1, b.x2)
    case Down => Box(v.xv - b.x2 - 1, v.yv - b.y2 - 1, v.xv - b.x1 - 1, v.yv - b.y1 - 1)
  }

  // Each virtual pixel of the box has been drawn on once; nothing else has changed
  ghost predicate Drawn(before: Frame, after: Frame, v: View, ink: Ink, box: Box)
    requires before.Valid() && before.n == 1 && v.Of(before)
  {
    && before.SamePadding(after)
    && forall x, y | v.On(x, y) :: DrawnAt(before, after, v, ink, box.Has(x, y), x, y)
  }

  ghost predicate DrawnAt(before: Frame, after: Frame, v: View, ink: Ink, inside: bool, x: int, y: int)
    requires before.Valid() && before.n == 1 && v.Of(before) && v.On(x, y) && before.SamePadding(after)
  {
    v.Seen(after, x, y)
      == if inside then [ApplyOp(ink.op, ink.c, v.Seen(before, x, y)[0], ink.bg)] else v.Seen(before, x, y)
  }

  lemma SeenDrawn(f: Frame, g: Frame, v: View, ink: Ink, box: Box)
    requires f.Valid() && f.n == 1 && v.Of(f) && Linear8.Drawn(f, g, ink, MapBox(v, box))
    ensures Drawn(f, g, v, ink, box)
  {
    forall x, y | v.On(x, y) ensures DrawnAt(f, g, v, ink, box.Has(x, y), x, y) {
      v.OnFrame(f, x, y);
    }
  }

  // The same backwards: what is drawn on the virtual screen is drawn on the physical one
  lemma DrawnBack(f: Frame, g: Frame, v: View, ink: Ink, box: Box)
    requires f.Valid() && f.n == 1 && v.Of(f) && Drawn(f, g, v, ink, box)
    ensures Linear8.Drawn(f, g, ink, MapBox(v, box))
  {
    forall px, py | f.In(px, py)
      ensures g.At(px, py) ==
        if MapBox(v, box).Has(px, py) then [ApplyOp(ink.op, ink.c, f.At(px, py)[0], ink.bg)] else f.At(px, py)
    {
      var x, y := v.Back().X(px, py), v.Back().Y(px, py);
      v.Bijective(x, y, px, py);
      assert DrawnAt(f, g, v, ink, box.Has(x, y), x, y);
    }
  }

  // Two parts of a virtual box, apart from each other
  lemma DrawnBoth(f: Frame, g: Frame, h: Frame, v: View, ink: Ink, a: Box, b: Box, box: Box)
    requires f.Valid() && f.n == 1 && g.Valid() && g.n == 1 && v.Of(f) && v.Of(g)
    requires Drawn(f, g, v, ink, a) && Drawn(g, h, v, ink, b)
    requires forall x, y | v.On(x, y) :: box.Has(x, y) == (a.Has(x, y) || b.Has(x, y)) && !(a.Has(x, y) && b.Has(x, y))
    ensures Drawn(f, h, v, ink, box)
  {
    f.PaddingChain(g, h);
    forall x, y | v.On(x, y) ensures DrawnAt(f, h, v, ink, box.Has(x, y), x, y) {
      assert DrawnAt(f, g, v, ink, a.Has(x, y), x, y);
      assert DrawnAt(g, h, v, ink, b.Has(x, y), x, y);
    }
  }

  lemma DrawnNothing(f: Frame, v: View, ink: Ink, box: Box)
    requires f.Valid() && f.n == 1 && v.Of(f) && (box.x1 > box.x2 || box.y1 > box.y2)
    ensures Drawn(f, f, v, ink, box)
  {
  }

  /** fbportrait_*_drawpixel, and the driver's own DrawPixel on an upright screen */
  method DrawPixel(psd: Psd, x: int, y: int, ink: Ink)
    requires psd.Valid() && psd.Virtual().On(x, y)
    modifies psd.addr
    ensures Drawn(old(psd.Screen()), psd.Screen(), psd.Virtual(), ink, Box(x, y, x, y))
  {
    match psd.portrait {
      case Upright => Linear8.DrawPixel(psd, x, y, ink);
      case Left => Linear8.DrawPixel(psd, y, psd.xvirtres - x - 1, ink);
      case Right => Linear8.DrawPixel(psd, psd.yvirtres - y - 1, x, ink);
      case Down => Linear8.DrawPixel(psd, psd.xvirtres - x - 1, psd.yvirtres - y - 1, ink);
    }
    SeenDrawn(old(psd.Screen()), psd.Screen(), psd.Virtual(), ink, Box(x, y, x, y));
  }

  /** fbportrait_*_readpixel */
  method ReadPixel(psd: Psd, x: int, y: int) returns (c: Byte)
    requires psd.Valid() && psd.Virtual().On(x, y)
    ensures psd.Virtual().Seen(psd.Screen(), x, y) == [c]
  {
    match psd.portrait {
      case Upright => c := Linear8.ReadPixel(psd, x, y);
      case Left => c := Linear8.ReadPixel(psd, y, psd.xvirtres - x - 1);
      case Right => c := Linear8.ReadPixel(psd, psd.yvirtres - y - 1, x);
      case Down => c := Linear8.ReadPixel(psd, psd.xvirtres - x - 1, psd.yvirtres - y - 1);
    }
  }

  /** fbportrait_*_drawhorzline */
  method DrawHorzLine(psd: Psd, x1: int, x2: int, y: int, ink: Ink)
    requires psd.Valid() && psd.Virtual().On(x1, y) && psd.Virtual().On(x2, y)
    modifies psd.addr
    ensures Drawn(old(psd.Screen()), psd.Screen(), psd.Virtual(), ink, Box(x1, y, x2, y))
  {
    match psd.portrait {
      case Upright => Linear8.DrawHorzLine(psd, x1, x2, y, ink);
      case Left => Linear8.DrawVertLine(psd, y, psd.xvirtres - x2 - 1, psd.xvirtres - x1 - 1, ink);
      case Right => Linear8.DrawVertLine(psd, psd.yvirtres - y - 1, x1, x2, ink);
      case Down => Linear8.DrawHorzLine(psd, psd.xvirtres - x2 - 1, psd.xvirtres - x1 - 1, psd.yvirtres - y - 1, ink);
    }
    SeenDrawn(old(psd.Screen()), psd.Screen(), psd.Virtual(), ink, Box(x1, y, x2, y));
  }

  /** fbportrait_*_drawvertline */
  method DrawVertLine(psd: Psd, x: int, y1: int, y2: int, ink: Ink)
    requires psd.Valid() && psd.Virtual().On(x, y1) && psd.Virtual().On(x, y2)
    modifies psd.addr
    ensures Drawn(old(psd.Screen()), psd.Screen(), psd.Virtual(), ink, Box(x, y1, x, y2))
  {
    match psd.portrait {
      case Upright => Linear8.DrawVertLine(psd, x, y1, y2, ink);
      case Left => Linear8.DrawHorzLine(psd, y1, y2, psd.xvirtres - x - 1, ink);
      case Right => Linear8.DrawHorzLine(psd, psd.yvirtres - y2 - 1, psd.yvirtres - y1 - 1, x, ink);
      case Down => Linear8.DrawVertLine(psd, psd.xvirtres - x - 1, psd.yvirtres - y2 - 1, psd.yvirtres - y1 - 1, ink);
    }
    SeenDrawn(old(psd.Screen()), psd.Screen(), psd.Virtual(), ink, Box(x, y1, x, y2));
  }

  // The loops of the left and right fillrect: physical rows from y1 to y2
  method FillRows(psd: Psd, x1: int, x2: int, y1: int, y2: int, ink: Ink)
    requires psd.Valid() && psd.Screen().In(x1, y1) && psd.Screen().In(x2, y2)
    modifies psd.addr
    ensures Linear8.Drawn(old(psd.Screen()), psd.Screen(), ink, Box(x1, y1, x2, y2))
  {
    hide Rows.Row, Frame.At, Frame.SamePadding;
    ghost var f := psd.Screen();
    Linear8.DrawnNothing(f, ink, Box(x1, y1, x2, y1 - 1));
    var y := y1;
    while y <= y2
      invariant y1 <= y && (y <= y2 + 1 || y == y1)
      invariant Linear8.Drawn(f, psd.Screen(), ink, Box(x1, y1, x2, y - 1))
    {
      ghost var g := psd.Screen();
      Linear8.DrawHorzLine(psd, x1, x2, y, ink);
      Linear8.DrawnBoth(f, g, psd.Screen(), ink, Box(x1, y1, x2, y - 1), Box(x1, y, x2, y), Box(x1, y1, x2, y));
      y := y + 1;
    }
  }

  /** fbportrait_*_fillrect; on an upright screen, gen_fillrect */
  method FillRect(psd: Psd, x1: int, y1: int, x2: int, y2: int, ink: Ink)
    requires psd.Valid() && psd.Virtual().On(x1, y1) && psd.Virtual().On(x2, y2)
    modifies psd.addr
    ensures Drawn(old(psd.Screen()), psd.Screen(), psd.Virtual(), ink, Box(x1, y1, x2, y2))
  {
    match psd.portrait {
      case Upright => GenFillRect(psd, x1, y1, x2, y2, ink);
      case Left =>
        FillRows(psd, y1, y2, psd.xvirtres - x2 - 1, psd.xvirtres - x1 - 1, ink);
        SeenDrawn(old(psd.Screen()), psd.Screen(), psd.Virtual(), ink, Box(x1, y1, x2, y2));
      case Right =>
        FillRows(psd, psd.yvirtres - y2 - 1, psd.yvirtres - y1 - 1, x1, x2, ink);
        SeenDrawn(old(psd.Screen()), psd.Screen(), psd.Virtual(), ink, Box(x1, y1, x2, y2));
      case Down => FillDown(psd, x1, y1, x2, y2, ink);
    }
  }

  // The loop of fbportrait_down_fillrect and of gen_fillrect: virtual rows
  method FillDown(psd: Psd, x1: int, y1: int, x2: int, y2: int, ink: Ink)
    requires psd.Valid() && psd.Virtual().On(x1, y1) && psd.Virtual().On(x2, y2)
    modifies psd.addr
    ensures Drawn(old(psd.Screen()), psd.Screen(), psd.Virtual(), ink, Box(x1, y1, x2, y2))
  {
    hide Rows.Row, Frame.At, Frame.SamePadding;
    ghost var f, v := psd.Screen(), psd.Virtual();
    DrawnNothing(f, v, ink, Box(x1, y1, x2, y1 - 1));
    var y := y1;
    while y <= y2
      invariant y1 <= y && (y <= y2 + 1 || y == y1)
      invariant Drawn(f, psd.Screen(), v, ink, Box(x1, y1, x2, y - 1))
    {
      ghost var g := psd.Screen();
      DrawHorzLine(psd, x1, x2, y, ink);
      DrawnBoth(f, g, psd.Screen(), v, ink, Box(x1, y1, x2, y - 1), Box(x1, y, x2, y), Box(x1, y1, x2, y));
      y := y + 1;
    }
  }

  // The other loop of gen_fillrect: virtual columns
  method FillAcross(psd: Psd, x1: int, y1: int, x2: int, y2: int, ink: Ink)
    requires psd.Valid() && psd.Virtual().On(x1, y1) && psd.Virtual().On(x2, y2)
    modifies psd.addr
    ensures Drawn(old(psd.Screen()), psd.Screen(), psd.Virtual(), ink, Box(x1, y1, x2, y2))
  {
    hide Rows.Row, Frame.At, Frame.SamePadding;
    ghost var f, v := psd.Screen(), psd.Virtual();
    DrawnNothing(f, v, ink, Box(x1, y1, x1 - 1, y2));
    var x := x1;
    while x <= x2
      invariant x1 <= x && (x <= x2 + 1 || x == x1)
      invariant Drawn(f, psd.Screen(), v, ink, Box(x1, y1, x - 1, y2))
    {
      ghost var g := psd.Screen();
      DrawVertLine(psd, x, y1, y2, ink);
      DrawnBoth(f, g, psd.Screen(), v, ink, Box(x1, y1, x - 1, y2), Box(x, y1, x, y2), Box(x1, y1, x, y2));
      x := x + 1;
    }
  }

  /** gen_fillrect: columns on a screen turned sideways, else rows */
  method GenFillRect(psd: Psd, x1: int, y1: int, x2: int, y2: int, ink: Ink)
    requires psd.Valid() && psd.Virtual().On(x1, y1) && psd.Virtual().On(x2, y2)
    modifies psd.addr
    ensures Drawn(old(psd.Screen()), psd.Screen(), psd.Virtual(), ink, Box(x1, y1, x2, y2))
  {
    if psd.portrait.Left? || psd.portrait.Right? {
      FillAcross(psd, x1, y1, x2, y2, ink);
    } else {
      FillDown(psd, x1, y1, x2, y2, ink);
    }
  }
}
