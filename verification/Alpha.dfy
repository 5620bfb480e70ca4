/** Antialiased glyphs on a palette screen (fblin8.c): blending with two lookup tables. */
module Alpha {
  import opened Arithmetic
  import opened Rows

  type Char = b: int | 0 <= b < 256
  type Level = a: int | 0 <= a < 32

  /** MWPALENTRY */
  datatype Colour = Colour(r: Char, g: Char, b: Char)

  // (v * a / 31) >> 3: a five-bit channel, weighted
  function Weighted(v: Char, a: Level): (n: Level)
  {
    AtMost(v, a, 255);
    v * a / 31 / 8
  }

  lemma AtMost(v: nat, a: nat, m: nat)
    requires v <= m
    ensures 0 <= v * a <= m * a
  {
    TimesNatural(a, v);
    TimesMonotone(a, v, m);
  }

  // RGB555
  function Pack(r: Level, g: Level, b: Level): (n: nat)
    ensures n < 0x8000
  {
    r * 1024 + g * 32 + b
  }

  // What alpha_to_rgb holds for a colour at a level
  function Entry(c: Colour, a: Level): nat {
    Pack(Weighted(c.r, a), Weighted(c.g, a), Weighted(c.b, a))
  }

  // Complementary weights never carry out of a channel
  lemma NoCarry(v: Char, w: Char, a: Level)
    ensures Weighted(v, a) + Weighted(w, 31 - a) < 32
  {
    AtMost(v, a, 255);
    AtMost(w, 31 - a, 255);
    Floors(v * a, w * (31 - a));
  }

  lemma Floors(p: nat, q: nat)
    requires p + q <= 255 * 31
    ensures p / 31 / 8 + q / 31 / 8 < 32
  {
  }

  // The mixture of two colours, channel by channel
  function Mixed(v: Char, w: Char, a: Level): Level {
    NoCarry(v, w, a);
    Weighted(v, a) + Weighted(w, 31 - a)
  }

  // `m` is the five-bit level of a mixture of a parts `v` and 31 - a parts `w`: each part is rounded down, so that less
  // than two steps are lost
  predicate Near(m: Level, v: Char, w: Char, a: Level) {
    248 * m <= v * a + w * (31 - a) < 248 * m + 496
  }

  lemma MixedNear(v: Char, w: Char, a: Level)
    ensures Near(Mixed(v, w, a), v, w, a)
  {
    AtMost(v, a, 255);
    AtMost(w, 31 - a, 255);
    FloorsNear(v * a, w * (31 - a));
  }

  lemma FloorsNear(p: nat, q: nat)
    ensures 248 * (p / 31 / 8 + q / 31 / 8) <= p + q < 248 * (p / 31 / 8 + q / 31 / 8) + 496
  {
  }

  // Adding the two table entries is adding the channels, and stays inside the second table
  lemma SumIsChannelwise(c: Colour, d: Colour, a: Level)
    ensures Entry(c, a) + Entry(d, 31 - a) == Pack(Mixed(c.r, d.r, a), Mixed(c.g, d.g, a), Mixed(c.b, d.b, a)) < 0x8000
  {
  }

  /** The two tables of a palette; `nearest` is GdFindNearestColor on it. */
  class Tables {
    const palette: seq<Colour>
    const nearest: (int, int, int) -> Char
    const alphaToRgb: array<nat>
    const rgbToPalindex: array<Char>

    ghost predicate Valid()
      reads alphaToRgb, rgbToPalindex
    {
      && |palette| == 256 && alphaToRgb.Length == 32 * 256 && rgbToPalindex.Length == 32 * 32 * 32
      && (forall a: Level, i: Char :: alphaToRgb[a * 256 + i] == Entry(palette[i], a))
      && (forall r: Level, g: Level, b: Level :: rgbToPalindex[Pack(r, g, b)] == nearest(r * 8, g * 8, b * 8))
    }

    /** init_alpha_lookup */
    constructor (palette: seq<Colour>, nearest: (int, int, int) -> Char)
      requires |palette| == 256
      ensures this.palette == palette && this.nearest == nearest && Valid() && fresh(alphaToRgb) && fresh(rgbToPalindex)
    {
      this.palette, this.nearest := palette, nearest;
      alphaToRgb, rgbToPalindex := new nat[32 * 256](_ => 0), new Char[32 * 32 * 32](_ => 0);
      new;
      FillAlpha();
      FillIndex();
    }

    method FillAlpha()
      requires |palette| == 256 && alphaToRgb.Length == 32 * 256
      modifies alphaToRgb
      ensures forall a: Level, i: Char :: alphaToRgb[a * 256 + i] == Entry(palette[i], a)
    {
      hide Entry;
      var i := 0;
      while i < 256
        invariant 0 <= i <= 256 && forall a: Level, k: Char | k < i :: alphaToRgb[a * 256 + k] == Entry(palette[k], a)
      {
        var p, a := palette[i], 0;
        while a < 32
          invariant 0 <= a <= 32 && forall a': Level, k: Char | k < i || (k == i && a' < a) ::
            alphaToRgb[a' * 256 + k] == Entry(palette[k], a')
        {
          alphaToRgb[a * 256 + i] := Entry(p, a);
          a := a + 1;
        }
        i := i + 1;
      }
    }

    method FillIndex()
      requires rgbToPalindex.Length == 32 * 32 * 32
      modifies rgbToPalindex
      ensures forall r: Level, g: Level, b: Level :: rgbToPalindex[Pack(r, g, b)] == nearest(r * 8, g * 8, b * 8)
    {
      var r := 0;
      while r < 32
        invariant 0 <= r <= 32
        invariant forall r': Level, g': Level, b': Level | r' < r ::
          rgbToPalindex[Pack(r', g', b')] == nearest(r' * 8, g' * 8, b' * 8)
      {
        var g := 0;
        while g < 32
          invariant 0 <= g <= 32
          invariant forall r': Level, g': Level, b': Level | r' < r || (r' == r && g' < g) ::
                      rgbToPalindex[Pack(r', g', b')] == nearest(r' * 8, g' * 8, b' * 8)
        {
          var b := 0;
          while b < 32
            invariant 0 <= b <= 32
            invariant forall r': Level, g': Level, b': Level
                        | r' < r || (r' == r && g' < g) || (r' == r && g' == g && b' < b) ::
                        rgbToPalindex[Pack(r', g', b')] == nearest(r' * 8, g' * 8, b' * 8)
          {
            rgbToPalindex[Pack(r, g, b)] := nearest(r * 8, g * 8, b * 8);
            b := b + 1;
          }
          g := g + 1;
        }
        r := r + 1;
      }
    }
  }

  /** The parameters of a blend. */
  datatype Blend = Blend(width: nat, height: nat, dstx: nat, dsty: nat, srcx: nat, srcy: nat, srcPitch: nat,
                         dstPitch: nat, fg: Char, bg: Char, usebg: bool) {

    // Where pixel (x, y) of the screen and column i, row j of the alpha channel are
    ghost function Dst(x: nat, y: nat): nat { Row(dstPitch, y) + x }
    ghost function Src(i: nat, j: nat): nat { Row(srcPitch, srcy + j) + srcx + i }

    ghost predicate Inside(from: nat, to: nat) {
      && dstx + width <= dstPitch && Row(dstPitch, dsty + height) <= to
      && (height > 0 ==> Row(srcPitch, srcy + height - 1) + srcx + width <= from)
    }

    lemma InsideAt(from: nat, to: nat, i: nat, j: nat)
      requires Inside(from, to) && i < width && j < height
      ensures Src(i, j) < from && Dst(dstx + i, dsty + j) < to
    {
      if j < height - 1 { RowMonotone(srcPitch, srcy + j, srcy + height - 1); }
      RowMonotone(dstPitch, dsty + j, dsty + height);
    }

    // The blend has come to column i of row j
    predicate Passed(i: int, j: int, x: int, y: int) {
      dstx <= x < dstx + width && dsty <= y && (y < dsty + j || (y == dsty + j && x < dstx + i))
    }

    // What a pixel becomes under alpha value `level`: fully opaque and fully clear are special
    function On(t: Tables, level: Char, d: Char): Char
      requires |t.palette| == 256
    {
      if level == 255 then fg
      else if level != 0 then
        var a: Level, f, e := level / 8, t.palette[fg], t.palette[d];
        t.nearest(8 * Mixed(f.r, e.r, a), 8 * Mixed(f.g, e.g, a), 8 * Mixed(f.b, e.b, a))
      else if usebg then bg
      else d
    }

    // The same without the tables: a mixed pixel is the entry nearest to a colour that lies `level / 8` parts of 31 on
    // the way from the pixel to the foreground
    ghost predicate Shown(t: Tables, level: Char, d: Char, c: Char)
      requires |t.palette| == 256
    {
      && (level == 255 ==> c == fg)
      && (level == 0 ==> c == if usebg then bg else d)
      && (0 < level < 255 ==> exists r: Level, g: Level, b: Level ::
            Between(t.palette[fg], t.palette[d], level / 8, r, g, b) && c == t.nearest(8 * r, 8 * g, 8 * b))
    }

    lemma OnShown(t: Tables, level: Char, d: Char)
      requires |t.palette| == 256
      ensures Shown(t, level, d, On(t, level, d))
    {
      hide Mixed, Near;
      if 0 < level < 255 {
        var a: Level, f, e := level / 8, t.palette[fg], t.palette[d];
        MixedNear(f.r, e.r, a);
        MixedNear(f.g, e.g, a);
        MixedNear(f.b, e.b, a);
        assert Between(f, e, a, Mixed(f.r, e.r, a), Mixed(f.g, e.g, a), Mixed(f.b, e.b, a));
      }
    }
  }

  ghost predicate Between(f: Colour, e: Colour, a: Level, r: Level, g: Level, b: Level) {
    Near(r, f.r, e.r, a) && Near(g, f.g, e.g, a) && Near(b, f.b, e.b, a)
  }

  lemma DstInjective(k: Blend, x: nat, y: nat, x': nat, y': nat)
    requires x < k.dstPitch && x' < k.dstPitch && k.Dst(x, y) == k.Dst(x', y')
    ensures x == x' && y == y'
  {
    if y < y' { RowMonotone(k.dstPitch, y, y'); }
    if y' < y { RowMonotone(k.dstPitch, y', y); }
  }

  // Every pixel before column i of row j has been blended; nothing else has changed
  ghost predicate Blended(k: Blend, t: Tables, alpha: seq<Char>, before: seq<Char>, now: seq<Char>, i: int, j: int)
    requires k.Inside(|alpha|, |before|) && |t.palette| == 256 && j <= k.height && (j == k.height ==> i == 0)
  {
    && |now| == |before|
    && forall x: nat, y: nat | x < k.dstPitch && k.Dst(x, y) < |before| ::
         BlendedAt(k, t, alpha, before, now, i, j, x, y)
  }

  ghost predicate BlendedAt(k: Blend, t: Tables, alpha: seq<Char>, before: seq<Char>, now: seq<Char>, i: int, j: int,
                            x: nat, y: nat)
    requires k.Inside(|alpha|, |before|) && |t.palette| == 256 && j <= k.height && (j == k.height ==> i == 0)
        && |now| == |before|
    requires k.Dst(x, y) < |before|
  {
    now[k.Dst(x, y)] ==
      if k.Passed(i, j, x, y) then
        k.InsideAt(|alpha|, |before|, x - k.dstx, y - k.dsty);
        k.On(t, alpha[k.Src(x - k.dstx, y - k.dsty)], before[k.Dst(x, y)])
      else before[k.Dst(x, y)]
  }

  lemma BlendedNext(k: Blend, t: Tables, alpha: seq<Char>, before: seq<Char>, now: seq<Char>, i: nat, j: nat, p: nat,
                    after: seq<Char>)
    requires k.Inside(|alpha|, |before|) && |t.palette| == 256 && i < k.width && j < k.height
        && Blended(k, t, alpha, before, now, i, j)
    requires k.Src(i, j) < |alpha| && p == k.Dst(k.dstx + i, k.dsty + j) < |now| && k.dstx + k.width <= k.dstPitch
    requires after == now[p := k.On(t, alpha[k.Src(i, j)], now[p])]
    ensures Blended(k, t, alpha, before, after, i + 1, j)
  {
    hide Row, Blend.On, Blend.Dst, Blend.Src, Blend.Inside;
    var i' := i + 1;
    assert BlendedAt(k, t, alpha, before, now, i, j, k.dstx + i, k.dsty + j);
    forall x: nat, y: nat {:trigger BlendedAt(k, t, alpha, before, after, i', j, x, y)}
      | x < k.dstPitch && k.Dst(x, y) < |before|
      ensures BlendedAt(k, t, alpha, before, after, i', j, x, y)
    {
      assert BlendedAt(k, t, alpha, before, now, i, j, x, y);
      if k.Dst(x, y) == p {
        DstInjective(k, x, y, k.dstx + i, k.dsty + j);
      }
    }
  }

  lemma BlendedRow(k: Blend, t: Tables, alpha: seq<Char>, before: seq<Char>, now: seq<Char>, j: nat)
    requires k.Inside(|alpha|, |before|) && |t.palette| == 256 && j < k.height
        && Blended(k, t, alpha, before, now, k.width, j)
    ensures Blended(k, t, alpha, before, now, 0, j + 1)
  {
    hide Blend.On, Blend.Inside;
    var j' := j + 1;
    forall x: nat, y: nat {:trigger BlendedAt(k, t, alpha, before, now, 0, j', x, y)}
      | x < k.dstPitch && k.Dst(x, y) < |before|
      ensures BlendedAt(k, t, alpha, before, now, 0, j', x, y)
    {
      assert BlendedAt(k, t, alpha, before, now, k.width, j, x, y);
    }
  }

  lemma BlendedStart(k: Blend, t: Tables, alpha: seq<Char>, before: seq<Char>)
    requires k.Inside(|alpha|, |before|) && |t.palette| == 256
    ensures Blended(k, t, alpha, before, before, 0, 0)
  {
  }

  // Every pixel of the rectangle shows its blend
  ghost predicate AllShown(k: Blend, t: Tables, alpha: seq<Char>, before: seq<Char>, now: seq<Char>)
    requires k.Inside(|alpha|, |before|) && |t.palette| == 256 && |now| == |before|
  {
    forall i: nat, j: nat {:trigger k.Src(i, j)} | i < k.width && j < k.height ::
      k.InsideAt(|alpha|, |before|, i, j);
      var p := k.Dst(k.dstx + i, k.dsty + j);
      k.Shown(t, alpha[k.Src(i, j)], before[p], now[p])
  }

  lemma BlendedShown(k: Blend, t: Tables, alpha: seq<Char>, before: seq<Char>, now: seq<Char>)
    requires k.Inside(|alpha|, |before|) && |t.palette| == 256 && Blended(k, t, alpha, before, now, 0, k.height)
    ensures |now| == |before| && AllShown(k, t, alpha, before, now)
  {
    hide Row, Blend.On, Blend.Shown, Blend.Src, Blend.Dst;
    forall i: nat, j: nat {:trigger k.Src(i, j)} | i < k.width && j < k.height
      ensures k.Src(i, j) < |alpha| && k.Dst(k.dstx + i, k.dsty + j) < |before|
      ensures var p := k.Dst(k.dstx + i, k.dsty + j); k.Shown(t, alpha[k.Src(i, j)], before[p], now[p])
    {
      k.InsideAt(|alpha|, |before|, i, j);
      var p := k.Dst(k.dstx + i, k.dsty + j);
      assert BlendedAt(k, t, alpha, before, now, 0, k.height, k.dstx + i, k.dsty + j);
      k.OnShown(t, alpha[k.Src(i, j)], before[p]);
    }
  }

  /** One pixel through the tables: the sum of two entries is the index of the nearest colour. */
  method BlendPixel(k: Blend, t: Tables, level: Char, d: Char) returns (c: Char)
    requires t.Valid()
    ensures c == k.On(t, level, d)
    ensures k.Shown(t, level, d, c)
  {
    hide Mixed, Entry, Near;
    k.OnShown(t, level, d);
    if level == 255 {
      c := k.fg;
    } else if level != 0 {
      var a: Level, b: Level := level / 8, 31 - level / 8;
      SumIsChannelwise(t.palette[k.fg], t.palette[d], a);
      var s, e := t.alphaToRgb[a * 256 + k.fg], t.alphaToRgb[b * 256 + d];
      c := t.rgbToPalindex[s + e];
    } else if k.usebg {
      c := k.bg;
    } else {
      c := d;
    }
  }

  /** linear8_convblit_blend_mask_alpha_byte */
  method BlendMaskAlphaByte(k: Blend, t: Tables, alpha: array<Char>, out: array<Char>)
    requires t.Valid() && alpha != out && out != t.rgbToPalindex && k.Inside(alpha.Length, out.Length)
    modifies out
    ensures Blended(k, t, alpha[..], old(out[..]), out[..], 0, k.height)
    ensures AllShown(k, t, alpha[..], old(out[..]), out[..])
  {
    hide Row, Blended, Blend.On, Pack, Entry, Blend.Shown, AllShown;
    ghost var before, levels := out[..], alpha[..];
    BlendedStart(k, t, levels, before);
    RowIsProduct(k.srcPitch, k.srcy);
    RowIsProduct(k.dstPitch, k.dsty);
    var s: int, d: int := k.srcPitch * k.srcy + k.srcx, k.dstPitch * k.dsty + k.dstx;
    var srcRowStep, dstRowStep := k.srcPitch - k.width, k.dstPitch - k.width;
    var y := 0;
    while y < k.height
      invariant 0 <= y <= k.height && t.Valid() && alpha[..] == levels
      invariant s == Row(k.srcPitch, k.srcy + y) + k.srcx && d == Row(k.dstPitch, k.dsty + y) + k.dstx
      invariant Blended(k, t, levels, before, out[..], 0, y)
    {
      var x := 0;
      while x < k.width
        invariant 0 <= x <= k.width && t.Valid() && alpha[..] == levels
        invariant s == Row(k.srcPitch, k.srcy + y) + k.srcx + x && d == Row(k.dstPitch, k.dsty + y) + k.dstx + x
        invariant Blended(k, t, levels, before, out[..], x, y)
      {
        k.InsideAt(alpha.Length, out.Length, x, y);
        ghost var now := out[..];
        var c := BlendPixel(k, t, alpha[s], out[d]);
        out[d] := c;
        BlendedNext(k, t, levels, before, now, x, y, d, out[..]);
        s, d, x := s + 1, d + 1, x + 1;
      }
      BlendedRow(k, t, levels, before, out[..], y);
      NextRow(k.srcPitch, k.srcy + y);
      NextRow(k.dstPitch, k.dsty + y);
      s, d, y := s + srcRowStep, d + dstRowStep, y + 1;
    }
    BlendedShown(k, t, levels, before, out[..]);
  }
}
