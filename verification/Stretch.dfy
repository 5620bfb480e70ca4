/** Stretching blits: the steps that GdStretchBlit (devblit.c) prepares and frameblit_stretchblit
    (convblit_frameb.c) takes through the source. */
module Stretch {
  import opened Arithmetic
  import opened Bits
  import opened Rows
  import opened Rops
  import opened Frames
  import opened Screens
  import opened FrameBlit

  /** A start, a step and an error term for one axis of the source. */
  datatype Steps = Steps(start: int, err: int, step: int, one: int, errStep: int, den: int) {

    // What the loops rely on
    predicate Ready() { den > 0 && -den <= err < 0 && 0 <= errStep <= den }

    // The source coordinate and the error term after k steps
    function At(k: nat): int
      requires den > 0
    {
      start + k * step + (err + den + k * errStep) / den * one
    }

    function Err(k: nat): int
      requires den > 0
    {
      (err + den + k * errStep) % den - den
    }
  }

  // C division
  function Quotient(n: int, d: int): int
    requires d > 0
  {
    if n < 0 then -(Abs(n) / d) else Abs(n) / d
  }

  function Sign(n: int): int { if n < 0 then -1 else if n == 0 then 0 else 1 }

  /** What GdStretchBlit computes for an axis on which `num` / `den` source pixels make one destination pixel, and the
      first one is at `fraction` / `den`. */
  function Prepared(fraction: int, num: int, den: int): Steps
    requires den > 0
  {
    var start, step := Quotient(fraction, den), Quotient(num, den);
    Steps(start, fraction - (start + 1) * den, step, Sign(num), Abs(num) - Abs(step) * den, den)
  }

  lemma DivNatural(n: nat, d: int)
    requires d > 0
    ensures n / d >= 0 && n == d * (n / d) + n % d
  {
  }

  // The steps are in range if the first source pixel does not lie left of the source
  lemma PreparedReady(fraction: int, num: int, den: int)
    requires den > 0 && fraction >= 0
    ensures var s := Prepared(fraction, num, den);
      && s.Ready() && s.start == fraction / den && s.err == fraction % den - den
      && Abs(s.step) == Abs(num) / den && s.errStep == Abs(num) % den
  {
    DivNatural(fraction, den);
    DivNatural(Abs(num), den);
  }

  // Left of the source, C rounds towards zero, and the error term is out of range unless the fraction is whole
  lemma PreparedReadyExactly(fraction: int, num: int, den: int)
    requires den > 0
    ensures Prepared(fraction, num, den).Ready() <==> fraction >= 0 || fraction % den == 0
  {
    DivNatural(Abs(fraction), den);
    DivNatural(Abs(num), den);
    if fraction < 0 {
      Negated(fraction, den);
    }
  }

  lemma Negated(n: int, d: int)
    requires d > 0 && n < 0
    ensures n % d == 0 <==> (-n) % d == 0
  {
    var q, r := (-n) / d, (-n) % d;
    assert -n == d * q + r;
    if r == 0 {
      DivUnique(d, -q, 0, n);
    } else {
      assert n == d * (-q - 1) + (d - r);
      DivUnique(d, -q - 1, d - r, n);
    }
  }

  // Taking one step: the error term stays in [-den, 0), and the source moves by the whole step, and by one more when
  // the error term overflows
  lemma OneStep(s: Steps, k: nat)
    requires s.Ready()
    ensures -s.den <= s.Err(k) < 0
    ensures var e := s.Err(k) + s.errStep;
      s.At(k + 1) == s.At(k) + s.step + (if e >= 0 then s.one else 0) && s.Err(k + 1) == if e >= 0 then e - s.den else e
  {
    var n := s.err + s.den + k * s.errStep;
    var n' := s.err + s.den + (k + 1) * s.errStep;
    assert n' == n + s.errStep;
    var q, r := n / s.den, n % s.den;
    if r + s.errStep >= s.den {
      DivUnique(s.den, q + 1, r + s.errStep - s.den, n');
    } else {
      DivUnique(s.den, q, r + s.errStep, n');
    }
  }

  lemma StartStep(s: Steps)
    requires s.Ready()
    ensures s.At(0) == s.start && s.Err(0) == s.err
  {
    DivUnique(s.den, 0, s.err + s.den, s.err + s.den);
  }

  // n + k * m in terms of quotients and remainders
  lemma Spread(den: int, f: int, m: int, k: nat)
    requires den > 0
    ensures f + k * m == den * (f / den + k * (m / den)) + (f % den + k * (m % den))
  {
    var q, r, p, e := f / den, f % den, m / den, m % den;
    assert f == den * q + r && m == den * p + e;
    assert k * m == k * (den * p) + k * e by { Distribute(den * p, e, k); }
    assert k * (den * p) == den * (k * p) by { Reorder(k, den, p); }
    assert den * (q + k * p) == den * q + den * (k * p);
  }

  lemma Reorder(a: int, b: int, c: int)
    ensures a * (b * c) == b * (a * c)
  {
  }

  // Unflipped, destination pixel k shows the source pixel that contains its point
  lemma Samples(fraction: int, num: int, den: int, k: nat)
    requires den > 0 && fraction >= 0 && num >= 0
    ensures Prepared(fraction, num, den).At(k) == (fraction + k * num) / den
  {
    PreparedReady(fraction, num, den);
    DivNatural(num, den);
    var f0, e, c := fraction % den, num % den, (fraction % den + k * (num % den)) / den;
    Spread(den, fraction, num, k);
    assert f0 + k * e == den * c + (f0 + k * e) % den;
    assert fraction + k * num == den * (fraction / den + k * (num / den) + c) + (f0 + k * e) % den;
    DivUnique(den, fraction / den + k * (num / den) + c, (f0 + k * e) % den, fraction + k * num);
    if num == 0 { DivUnique(den, 0, f0, f0); }
  }

  // Flipped, it shows the one that is as far from the first as an unflipped stretch would have gone
  lemma SamplesFlipped(fraction: int, num: int, den: int, k: nat)
    requires den > 0 && fraction >= 0 && num < 0
    ensures Prepared(fraction, num, den).At(k) == fraction / den - (fraction % den + k * Abs(num)) / den
  {
    hide Abs;
    FlippedFields(fraction, num, den);
    CountedSteps(fraction % den, Abs(num), den, k);
    assert k * -(Abs(num) / den) == -(k * (Abs(num) / den));
  }

  lemma FlippedFields(fraction: int, num: int, den: int)
    requires den > 0 && fraction >= 0 && num < 0
    ensures Prepared(fraction, num, den)
      == Steps(fraction / den, fraction % den - den, -(Abs(num) / den), -1, Abs(num) % den, den)
  {
    PreparedReady(fraction, num, den);
  }

  // What k steps of m / den add up to, from f0 / den on
  lemma CountedSteps(f0: int, m: nat, den: int, k: nat)
    requires 0 <= f0 < den
    ensures (f0 + k * m) / den == k * (m / den) + (f0 + k * (m % den)) / den
  {
    var e := m % den;
    var c := (f0 + k * e) / den;
    Spread(den, f0, m, k);
    DivUnique(den, 0, f0, f0);
    assert f0 + k * m == den * (k * (m / den) + c) + (f0 + k * e) % den by {
      Distribute(k * (m / den), c, den);
    }
    DivUnique(den, k * (m / den) + c, (f0 + k * e) % den, f0 + k * m);
  }

  // That is the pixel that contains the point just if the point and its mirror image round alike
  lemma FlippedContains(fraction: int, num: int, den: int, k: nat)
    requires den > 0 && fraction >= 0 && num < 0
    ensures var f0, r := fraction % den, k * Abs(num) % den;
      Prepared(fraction, num, den).At(k) == (fraction + k * num) / den <==> (f0 < r) == (f0 + r >= den)
  {
    SamplesFlipped(fraction, num, den, k);
    var m := k * Abs(num);
    assert k * num == -m;
    Mirror(fraction, m, den);
  }

  lemma Mirror(f: int, m: nat, den: int)
    requires den > 0
    ensures f / den - (f % den + m) / den == (f - m) / den <==> (f % den < m % den) == (f % den + m % den >= den)
  {
    Carried(f % den, m, den);
    Borrowed(f, m, den);
  }

  lemma Carried(f0: int, m: int, den: int)
    requires 0 <= f0 < den
    ensures (f0 + m) / den == m / den + if f0 + m % den >= den then 1 else 0
  {
    var u, r := m / den, m % den;
    if f0 + r >= den {
      assert f0 + m == den * (u + 1) + (f0 + r - den);
      DivUnique(den, u + 1, f0 + r - den, f0 + m);
    } else {
      DivUnique(den, u, f0 + r, f0 + m);
    }
  }

  lemma Borrowed(f: int, m: int, den: int)
    requires den > 0
    ensures (f - m) / den == f / den - m / den - if f % den < m % den then 1 else 0
  {
    var q, f0, u, r := f / den, f % den, m / den, m % den;
    if f0 < r {
      assert f - m == den * (q - u - 1) + (f0 - r + den);
      DivUnique(den, q - u - 1, f0 - r + den, f - m);
    } else {
      assert f - m == den * (q - u) + (f0 - r);
      DivUnique(den, q - u, f0 - r, f - m);
    }
  }

  // An axis on which source columns s1 to s2 are stretched over destination columns d1 to d2, from column d1 + m on;
  // all numerators and denominators are even, and half a destination pixel is added
  function Num(s1: int, s2: int): int { 2 * (s2 - s1 + 1) }

  function Den(d1: int, d2: int): int { 2 * (d2 - d1 + 1) }

  function Fraction(s1: int, s2: int, d1: int, d2: int, m: int): int {
    s1 * Den(d1, d2) + m * Num(s1, s2) + Num(s1, s2) / 2
  }

  function Axis(s1: int, s2: int, d1: int, d2: int, m: int): Steps
    requires d1 < d2
  {
    Prepared(Fraction(s1, s2, d1, d2, m), Num(s1, s2), Den(d1, d2))
  }

  // Column c of the source contains the centre of destination column d1 + m, at s1 + (m + 1/2) * w / n
  predicate Contains(s1: int, s2: int, d1: int, d2: int, m: int, c: int) {
    var w, n := s2 - s1 + 1, d2 - d1 + 1;
    2 * n * c <= 2 * n * s1 + (2 * m + 1) * w < 2 * n * (c + 1)
  }

  // The centre is not left of the source
  predicate Starts(s1: int, s2: int, d1: int, d2: int, m: int) {
    var w, n := s2 - s1 + 1, d2 - d1 + 1;
    0 <= 2 * n * s1 + (2 * m + 1) * w
  }

  lemma FractionContains(s1: int, s2: int, d1: int, d2: int, m: int)
    requires d1 < d2
    ensures Contains(s1, s2, d1, d2, m, Fraction(s1, s2, d1, d2, m) / Den(d1, d2))
    ensures Starts(s1, s2, d1, d2, m) <==> Fraction(s1, s2, d1, d2, m) >= 0
  {
    FractionIs(s1, s2, d1, d2, m);
    var den, f := Den(d1, d2), Fraction(s1, s2, d1, d2, m);
    var c := f / den;
    assert f == den * c + f % den;
    Distribute(c, 1, den);
  }

  // Unflipped, where a clip rectangle begins does not matter: each column shows the pixel that contains its centre
  lemma AxisSamples(s1: int, s2: int, d1: int, d2: int, m: nat, k: nat)
    requires d1 < d2 && s1 <= s2 + 1 && Starts(s1, s2, d1, d2, m)
    ensures Axis(s1, s2, d1, d2, m).At(k) == Fraction(s1, s2, d1, d2, m + k) / Den(d1, d2)
    ensures Contains(s1, s2, d1, d2, m + k, Axis(s1, s2, d1, d2, m).At(k))
  {
    hide Contains, Starts, Prepared, Steps.At;
    FractionContains(s1, s2, d1, d2, m);
    FractionContains(s1, s2, d1, d2, m + k);
    Samples(Fraction(s1, s2, d1, d2, m), Num(s1, s2), Den(d1, d2), k);
    Distribute(m, k, Num(s1, s2));
  }

  lemma QuotientWithin(d: int, lo: int, n: int, hi: int)
    requires d > 0 && d * lo <= n < d * (hi + 1)
    ensures lo <= n / d <= hi
  {
    var q, r := n / d, n % d;
    if q < lo { TimesNext(d, q, lo); }
    if hi < q { TimesMonotone(d, hi + 1, q); }
  }

  // These are columns s1 to s2, inside a source that has them
  lemma AxisStays(s1: int, s2: int, d1: int, d2: int, m: nat, k: nat)
    requires d1 < d2 && 0 <= s1 <= s2 && d1 + m + k <= d2
    ensures Axis(s1, s2, d1, d2, m).Ready() && s1 <= Axis(s1, s2, d1, d2, m).At(k) <= s2
  {
    hide Prepared, Steps.At;
    var w, den, n := s2 - s1 + 1, Den(d1, d2), m + k;
    FractionIs(s1, s2, d1, d2, m);
    FractionIs(s1, s2, d1, d2, n);
    TimesNatural(s1, den);
    TimesNatural(2 * m + 1, w);
    TimesNatural(2 * n + 1, w);
    PreparedReady(Fraction(s1, s2, d1, d2, m), Num(s1, s2), den);
    FractionContains(s1, s2, d1, d2, m);
    AxisSamples(s1, s2, d1, d2, m, k);
    TimesNext(w, 2 * n + 1, den);
    Distribute(s1, w, den);
    QuotientWithin(den, s1, Fraction(s1, s2, d1, d2, n), s2);
  }

  lemma FractionIs(s1: int, s2: int, d1: int, d2: int, m: int)
    ensures var w, den := s2 - s1 + 1, Den(d1, d2);
      Fraction(s1, s2, d1, d2, m) == s1 * den + (2 * m + 1) * w
  {
    var w := s2 - s1 + 1;
    assert m * (2 * w) == (2 * m) * w;
    Distribute(2 * m, 1, w);
  }

  // Flipped, they are columns s2 to s1 - 1
  lemma FlippedStays(s1: int, s2: int, d1: int, d2: int, m: nat, k: nat)
    requires d1 < d2 && 0 <= s2 && s2 + 1 < s1 && d1 + m + k <= d2
    ensures Axis(s1, s2, d1, d2, m).Ready() && s2 <= Axis(s1, s2, d1, d2, m).At(k) < s1
  {
    hide Prepared, Steps.At;
    var h, den, n := s1 - s2 - 1, Den(d1, d2), m + k;
    var f := Fraction(s1, s2, d1, d2, m);
    FractionIs(s1, s2, d1, d2, m);
    FlippedFraction(s1, h, den, m, n, f);
    PreparedReady(f, Num(s1, s2), den);
    SamplesFlipped(f, Num(s1, s2), den, k);
    FlippedWithin(s1, h, den, m, k, f);
  }

  lemma FlippedFraction(s1: int, h: int, den: int, m: nat, n: nat, f: int)
    requires h >= 1 && m <= n && 2 * n + 2 <= den && s1 > h && f == s1 * den + (2 * m + 1) * -h
    ensures 0 <= f < s1 * den && f == s1 * den - (2 * m * h + h)
  {
    assert (2 * m + 1) * -h == -(2 * m * h + h);
    TimesNatural(2 * m, h);
    TimesNext(h, 2 * m + 1, den);
    TimesMonotone(den, h, s1);
  }

  lemma FlippedWithin(s1: int, h: int, den: int, m: nat, k: nat, f: int)
    requires h >= 1 && 2 * (m + k) + 2 <= den && 0 <= f < s1 * den && f == s1 * den - (2 * m * h + h)
    ensures s1 - h - 1 <= f / den - (f % den + k * (2 * h)) / den < s1
  {
    var q, f0 := f / den, f % den;
    var g := f0 + k * (2 * h);
    var c, e := g / den, g % den;
    TimesNatural(k, 2 * h);
    assert k * (2 * h) == 2 * k * h;
    HalfWidths(h, den, m, k);
    QuotientsApart(s1, h, den, q, f0, c, e, 2 * m * h, 2 * k * h);
  }

  lemma QuotientsApart(s1: int, h: int, den: int, q: int, f0: int, c: int, e: int, a: int, b: int)
    requires h >= 1 && 0 <= f0 < den && 0 <= e < den && a >= 0 && b >= 0 && a + b <= den * h - 2 * h
    requires den * q + f0 == s1 * den - (a + h) && den * c + e == f0 + b
    ensures s1 - h - 1 <= q - c < s1
  {
    if c < 0 { TimesMonotone(den, c, -1); }
    if q >= s1 { TimesMonotone(den, s1, q); }
    Minus(den, q, c);
    Minus(den, s1, h + 2);
    Minus(den, h, -2);
    if q - c <= s1 - (h + 2) { TimesMonotone(den, q - c, s1 - (h + 2)); }
  }

  lemma HalfWidths(h: int, den: int, m: nat, k: nat)
    requires h >= 1 && 2 * (m + k) + 2 <= den
    ensures 2 * m * h + 2 * k * h <= den * h - 2 * h
  {
    Distribute(2 * m, 2 * k, h);
    TimesMonotone(h, 2 * m + 2 * k, den - 2);
    Minus(h, den, 2);
  }

  lemma Minus(k: int, a: int, b: int)
    ensures k * (a - b) == k * a - k * b
  {
  }

  // Flipped, a column at which a clip rectangle begins does so, too, and shows the same pixel as without that clipping
  // just if its centre and the mirror image of it round alike
  lemma ClippedAlike(s1: int, s2: int, d1: int, d2: int, m: nat)
    requires d1 < d2 && s2 + 1 < s1 && Starts(s1, s2, d1, d2, m)
    ensures var w, den := s2 - s1 + 1, 2 * (d2 - d1 + 1);
      var f, r := (s1 * den + w) % den, m * (-2 * w) % den;
      && Contains(s1, s2, d1, d2, m, Axis(s1, s2, d1, d2, m).At(0))
      && (Axis(s1, s2, d1, d2, 0).At(m) == Axis(s1, s2, d1, d2, m).At(0) <==> (f < r) == (f + r >= den))
  {
    hide Prepared, Contains, Starts;
    var num, den, f := Num(s1, s2), Den(d1, d2), Fraction(s1, s2, d1, d2, 0);
    FractionContains(s1, s2, d1, d2, m);
    FractionIs(s1, s2, d1, d2, 0);
    PreparedReady(Fraction(s1, s2, d1, d2, m), num, den);
    StartStep(Axis(s1, s2, d1, d2, m));
    TimesNatural(m, -num);
    FlippedContains(f, num, den, m);
  }

  // From source column 2 back to 0, over destination columns 0 to 2: the second one shows source column 0
  lemma FlippedMisses()
    ensures Axis(2, 0, 0, 2, 0).At(1) == 0
  {
    hide Prepared, Steps.At;
    SamplesFlipped(11, -2, 6, 1);
  }

  // If a clip rectangle begins there, it shows source column 1, which contains its centre at 9/6
  lemma ClippedShows()
    ensures Axis(2, 0, 0, 2, 1).At(0) == 1
    ensures Fraction(2, 0, 0, 2, 1) == 9 && Den(0, 2) == 6
  {
    hide Prepared, Steps.At;
    SamplesFlipped(9, -2, 6, 0);
  }

  // Columns -1 to 1 onto two: the error term starts out of range
  lemma StartsOutOfRange()
    ensures Fraction(-1, 1, 0, 1, 0) == -1 && !Axis(-1, 1, 0, 1, 0).Ready()
  {
    PreparedReadyExactly(-1, 6, 4);
  }

  /** A stretch of w x h destination pixels: which source pixel each of them shows. */
  datatype Stretching = Stretching(sf: Frame, xs: Steps, ys: Steps, w: nat, h: nat) {

    ghost predicate Sound() {
      && sf.Valid() && xs.Ready() && ys.Ready()
      && (forall i: nat | i < w :: 0 <= xs.At(i) < sf.cols) && (forall j: nat | j < h :: 0 <= ys.At(j) < sf.rows)
    }

    ghost function Pixel(i: nat, j: nat): (v: seq<Byte>)
      requires Sound() && i < w && j < h
      ensures |v| == sf.n
    {
      sf.At(xs.At(i), ys.At(j))
    }

    // The byte at p of the stretched image, if its rows are stored without padding
    ghost function ByteAt(p: nat): Byte
      requires Sound()
    {
      var line := sf.n * w;
      if line <= 0 then Fill(8, false)
      else
        var x, y, b := p % line / sf.n, p / line, p % line % sf.n;
        if 0 <= x < w && 0 <= y < h && 0 <= b < sf.n then Pixel(x, y)[b] else Fill(8, false)
    }

    // The stretched image
    ghost function Image(): Frame
      requires Sound()
    {
      Frame(Row(sf.n, w), sf.n, w, h, seq(Row(Row(sf.n, w), h), p requires 0 <= p < Row(Row(sf.n, w), h) => ByteAt(p)))
    }

    lemma ImageAt(i: nat, j: nat)
      requires Sound() && i < w && j < h
      ensures Image().Valid() && Image().At(i, j) == Pixel(i, j)
    {
      var f, n := Image(), sf.n;
      f.AddrIn(i, j);
      RowIsProduct(n, w);
      RowIsProduct(n * w, j);
      RowIsProduct(n, i);
      RowMonotone(n, i, w);
      forall b | 0 <= b < n ensures f.At(i, j)[b] == Pixel(i, j)[b] {
        var p := f.Addr(i, j) + b;
        assert p == n * w * j + (n * i + b);
        DivUnique(n * w, j, n * i + b, p);
        DivUnique(n, i, b, n * i + b);
        assert f.bytes[p] == ByteAt(p);
      }
    }
  }

  // The source pointer stands on the pixel that column i of row j shows
  ghost predicate Reads(g: Stretching, i: int, j: int, s: int) {
    0 <= i < g.w && 0 <= j < g.h && g.xs.den > 0 && g.ys.den > 0 ==> s == g.ys.At(j) * g.sf.pitch + g.xs.At(i) * g.sf.n
  }

  // Reading through the pointer is reading the stretched image
  lemma ReadsImage(g: Stretching, i: nat, j: nat, s: int)
    requires g.Sound() && i < g.w && j < g.h && Reads(g, i, j, s)
    ensures 0 <= s && s + g.sf.n <= |g.sf.bytes| && g.Image().Valid() && g.Image().In(i, j)
    ensures 0 <= g.Image().Addr(i, j) && g.Image().Addr(i, j) + g.sf.n <= |g.Image().bytes|
    ensures g.sf.bytes[s..s + g.sf.n] == g.Image().bytes[g.Image().Addr(i, j)..g.Image().Addr(i, j) + g.sf.n]
  {
    var x, y := g.xs.At(i), g.ys.At(j);
    AddrIsProduct(g.sf, x, y);
    g.sf.AddrIn(x, y);
    g.ImageAt(i, j);
    g.Image().AddrIn(i, j);
  }

  // One column on: a whole step, and one pixel more if the error term overflows
  lemma ReadsAcross(g: Stretching, i: nat, j: int, s: int, s': int)
    requires g.xs.Ready() && Reads(g, i, j, s) && i < g.w
    requires s' == s + g.xs.step * g.sf.n + (if g.xs.Err(i) + g.xs.errStep >= 0 then g.xs.one * g.sf.n else 0)
    ensures Reads(g, i + 1, j, s')
  {
    OneStep(g.xs, i);
    var d := g.xs.At(i + 1) - g.xs.At(i);
    assert d * g.sf.n == g.xs.step * g.sf.n + (if g.xs.Err(i) + g.xs.errStep >= 0 then g.xs.one * g.sf.n else 0) by {
      Distribute(g.xs.step, g.xs.one, g.sf.n);
    }
    Distribute(g.xs.At(i), d, g.sf.n);
  }

  lemma ReadsDown(g: Stretching, j: nat, s: int, s': int)
    requires g.ys.Ready() && Reads(g, 0, j, s) && j < g.h
    requires s' == s + g.ys.step * g.sf.pitch + (if g.ys.Err(j) + g.ys.errStep >= 0 then g.ys.one * g.sf.pitch else 0)
    ensures Reads(g, 0, j + 1, s')
  {
    OneStep(g.ys, j);
    var d := g.ys.At(j + 1) - g.ys.At(j);
    assert d * g.sf.pitch
        == g.ys.step * g.sf.pitch + (if g.ys.Err(j) + g.ys.errStep >= 0 then g.ys.one * g.sf.pitch else 0) by {
      Distribute(g.ys.step, g.ys.one, g.sf.pitch);
    }
    Distribute(g.ys.At(j), d, g.sf.pitch);
  }

  // The plain blit that a stretch is: of the stretched image
  ghost predicate Plain(k: Job, g: Stretching)
  {
    g.Sound() && !k.one && k.op == MWROP_COPY && k.sf == g.Image() && k.w == g.w && k.h == g.h
        && 1 <= k.df.n == g.sf.n <= 4
    && k.sg == Grid(0, 0, East, South)
  }

  lemma PlainFacts(k: Job, g: Stretching)
    requires Plain(k, g)
    ensures g.Sound() && !k.one && k.op == MWROP_COPY && k.sf == g.Image() && k.w == g.w && k.h == g.h
        && 1 <= k.df.n == g.sf.n == k.sf.n <= 4
    ensures k.sg.across.Step(k.sf.n, k.sf.pitch) == k.sf.n && g.xs.Ready() && g.ys.Ready()
  {
  }

  // One pixel copied through the pointers takes the walk one column on
  lemma PixelStretched(k: Job, g: Stretching, i: nat, j: nat, d: int, p: int, s: int, bytes: seq<Byte>,
                       after: seq<Byte>)
    requires Plain(k, g) && i < g.w && j < g.h && Points(k, i, j, d, p) && Reads(g, i, j, s) && Walked(k, i, j, bytes)
    requires 0 <= d && d + g.sf.n <= |bytes| && 0 <= s && s + g.sf.n <= |g.sf.bytes|
    requires after == Spliced(bytes, d, Blend(MWROP_COPY, g.sf.bytes[s..s + g.sf.n], bytes[d..d + g.sf.n]))
    ensures Walked(k, i + 1, j, after)
  {
    hide Walked, Stretching.Image, Blend, Frame.At, Frame.Addr;
    ReadsImage(g, i, j, s);
    assert p == k.sf.Addr(i, j);
    PixelDone(k, i, j, d, p, bytes, k.sf.bytes, after);
  }

  /** The inner loop: one row. */
  method StretchRow(ghost k: Job, ghost g: Stretching, ghost j: nat, dst: array<Byte>, src: array<Byte>, n: nat,
                    width: int, d0: int, ghost p0: int, s0: int, dsz: int, srcXStep: int, srcXStepOne: int,
                    errXStart: int, errXStep: int, xDenominator: int)
    requires Plain(k, g) && n == g.sf.n && width == g.w && j < g.h && dst != src && src[..] == g.sf.bytes
        && dst.Length == |k.df.bytes|
    requires dsz == k.dg.across.Step(n, k.df.pitch) && srcXStep == g.xs.step * n && srcXStepOne == g.xs.one * n
    requires errXStart == g.xs.err && errXStep == g.xs.errStep && xDenominator == g.xs.den
    requires Points(k, 0, j, d0, p0) && Reads(g, 0, j, s0) && Walked(k, 0, j, dst[..])
    modifies dst
    ensures Walked(k, 0, j + 1, dst[..])
  {
    hide *;
    PlainFacts(k, g);
    StartStep(g.xs);
    var s, d, errX, w := s0, d0, errXStart, width;
    ghost var p, i: nat := p0, 0;
    while w > 0
      invariant 0 <= w && i + w == width && src[..] == g.sf.bytes && errX == g.xs.Err(i)
      invariant Points(k, i, j, d, p) && Reads(g, i, j, s) && Walked(k, i, j, dst[..])
    {
      ghost var before := dst[..];
      SameOrApart(k, i, j, d, p);
      ReadsImage(g, i, j, s);
      BlitPixel(MWROP_COPY, dst, d, src, s, n);
      PixelStretched(k, g, i, j, d, p, s, before, dst[..]);
      PointsAcross(k, i, j, d, p);
      OneStep(g.xs, i);
      ghost var s1 := s;
      d := d + dsz;
      s := s + srcXStep;
      errX := errX + errXStep;
      if errX >= 0 {
        s := s + srcXStepOne;
        errX := errX - xDenominator;
      }
      ReadsAcross(g, i, j, s1, s);
      p, i, w := p + n, i + 1, w - 1;
    }
    WalkedRow(k, i, j, dst[..]);
  }

  /** The outer loop. */
  method StretchRows(ghost k: Job, ghost g: Stretching, dst: array<Byte>, src: array<Byte>, n: nat, width: int,
                     height: int, d0: int, s0: int, dsz: int, dstYStep: int, xs: Steps, ys: Steps, srcXStep: int,
                     srcXStepOne: int, srcYStep: int, srcYStepOne: int)
    requires Plain(k, g) && n == g.sf.n && width == g.w && height == g.h && dst != src && src[..] == g.sf.bytes
        && dst[..] == k.df.bytes
    requires dsz == k.dg.across.Step(n, k.df.pitch) && dstYStep == k.dg.down.Step(n, k.df.pitch) && xs == g.xs
        && ys == g.ys
    requires srcXStep == g.xs.step * n && srcXStepOne == g.xs.one * n
    requires srcYStep == g.ys.step * g.sf.pitch && srcYStepOne == g.ys.one * g.sf.pitch
    requires Points(k, 0, 0, d0, 0) && Reads(g, 0, 0, s0)
    modifies dst
    ensures forall x, y | k.df.In(x, y) ::
      k.df.(bytes := dst[..]).Valid() && k.df.(bytes := dst[..]).At(x, y) == Target(k, x, y)
    ensures k.df.SamePadding(k.df.(bytes := dst[..]))
  {
    hide *;
    PlainFacts(k, g);
    StartStep(g.ys);
    WalkStarts(k);
    var line, d, errY, h := s0, d0, ys.err, height;
    ghost var p, j: nat := 0, 0;
    while h > 0
      invariant 0 <= h && j + h == height && src[..] == g.sf.bytes && errY == g.ys.Err(j)
      invariant Points(k, 0, j, d, p) && Reads(g, 0, j, line) && Walked(k, 0, j, dst[..])
    {
      StretchRow(k, g, j, dst, src, n, width, d, p, line, dsz, srcXStep, srcXStepOne, xs.err, xs.errStep, xs.den);
      PointsDown(k, j, d, p);
      OneStep(g.ys, j);
      ghost var s1 := line;
      d := d + dstYStep;
      line := line + srcYStep;
      errY := errY + ys.errStep;
      if errY >= 0 {
        line := line + srcYStepOne;
        errY := errY - ys.den;
      }
      ReadsDown(g, j, s1, line);
      p, j, h := p + k.sg.down.Step(k.sf.n, k.sf.pitch), j + 1, h - 1;
    }
    WalkEnds(k, j, dst[..]);
  }

  // The rectangle of the destination, filled from the stretched image
  function Whole(r: Request): Request { r.(srcx := 0, srcy := 0) }

  ghost predicate StretchSound(r: Request, df: Frame, dv: View, g: Stretching) {
    && df.Valid() && 1 <= df.n == g.sf.n <= 4 && dv.Of(df) && g.Sound() && r.w == g.w && r.h == g.h
    && (r.w > 0 && r.h > 0 ==> dv.On(r.dstx, r.dsty) && dv.On(r.dstx + r.w - 1, r.dsty + r.h - 1))
  }

  lemma StretchJob(r: Request, df: Frame, dv: View, g: Stretching) returns (k: Job)
    requires StretchSound(r, df, dv, g)
    ensures Sound(Whole(r), df, dv, g.Image(), View(Upright, g.w, g.h))
    ensures k == JobOf(MWROP_COPY, Whole(r), df, dv, g.Image(), View(Upright, g.w, g.h), false)
    ensures Plain(k, g) && k.df == df && k.dg == ConvGrids(Whole(r), dv).0
  {
    assert g.Image().Valid();
    k := JobOf(MWROP_COPY, Whole(r), df, dv, g.Image(), View(Upright, g.w, g.h), false);
  }

  // What the stretched blit does, pixel by pixel
  ghost predicate Stretched(r: Request, df: Frame, dv: View, g: Stretching, after: Frame)
    requires StretchSound(r, df, dv, g)
  {
    && df.SamePadding(after)
    && forall x, y | dv.On(x, y) ::
         dv.Seen(after, x, y) == if r.Has(x, y) then g.Pixel(x - r.dstx, y - r.dsty) else dv.Seen(df, x, y)
  }

  lemma BlitIsStretched(r: Request, df: Frame, dv: View, g: Stretching, after: Frame)
    requires StretchSound(r, df, dv, g) && Sound(Whole(r), df, dv, g.Image(), View(Upright, g.w, g.h))
    requires BlitDone(MWROP_COPY, Whole(r), df, dv, g.Image(), View(Upright, g.w, g.h), after)
    ensures Stretched(r, df, dv, g, after)
  {
    hide Frame.At, Frame.Addr, View.X, View.Y, Stretching.Image, Stretching.Pixel, Blend, Blitted;
    forall x, y | dv.On(x, y)
      ensures dv.Seen(after, x, y) == if r.Has(x, y) then g.Pixel(x - r.dstx, y - r.dsty) else dv.Seen(df, x, y)
    {
      PixelIsStretched(r, df, dv, g, x, y);
    }
  }

  lemma PixelIsStretched(r: Request, df: Frame, dv: View, g: Stretching, x: int, y: int)
    requires StretchSound(r, df, dv, g) && Sound(Whole(r), df, dv, g.Image(), View(Upright, g.w, g.h)) && dv.On(x, y)
    ensures Blitted(MWROP_COPY, Whole(r), df, dv, g.Image(), View(Upright, g.w, g.h), x, y)
      == if r.Has(x, y) then g.Pixel(x - r.dstx, y - r.dsty) else dv.Seen(df, x, y)
  {
    hide Frame.At, Frame.Addr, Frame.Valid, Stretching.Image, Stretching.Pixel, Blend;
    if r.Has(x, y) {
      g.ImageAt(x - r.dstx, y - r.dsty);
      BlendCopies(g.Pixel(x - r.dstx, y - r.dsty), dv.Seen(df, x, y));
    }
  }

  lemma BlendCopies(s: seq<Byte>, d: seq<Byte>)
    requires |s| == |d|
    ensures Blend(MWROP_COPY, s, d) == s
  {
  }

  lemma ReadsFirst(g: Stretching, srcx: int, srcy: int)
    requires g.xs.Ready() && g.ys.Ready() && srcx == g.xs.start && srcy == g.ys.start
    ensures Reads(g, 0, 0, srcy * g.sf.pitch + srcx * g.sf.n)
  {
    StartStep(g.xs);
    StartStep(g.ys);
  }

  /** frameblit_stretchblit in COPY mode, for source and destination pixels of n bytes */
  method StretchBlit(psd: Psd, gc: BlitParms, n: nat, xs: Steps, ys: Steps)
    requires psd.Turned() && gc.data != gc.dataOut && gc.width >= 0 && gc.height >= 0 && gc.srcportrait.Upright?
    requires gc.srcx == xs.start && gc.srcy == ys.start
    requires StretchSound(gc.Rect(), gc.To(psd, n), psd.Virtual(), Stretching(gc.From(n), xs, ys, gc.width, gc.height))
    modifies gc, gc.dataOut
    ensures Stretched(old(gc.Rect()), old(gc.To(psd, n)), psd.Virtual(),
        Stretching(old(gc.From(n)), xs, ys, old(gc.width), old(gc.height)), gc.To(psd, n))
  {
    hide Stretched, StretchSound, Plain, Points, Reads, Stretching.Image, Stretching.Sound, FrameGrids, Frame.Valid;
    ghost var r, df, dv, g := gc.Rect(), gc.To(psd, n), psd.Virtual(),
        Stretching(gc.From(n), xs, ys, gc.width, gc.height);
    ghost var k := StretchJob(r, df, dv, g);
    StretchFacts(r, df, dv, g);
    var dsz, dstPitch := gc.RotateConv(psd, n);
    var src := gc.srcy * gc.srcPitch + gc.srcx * n;
    var dst := gc.dsty * gc.dstPitch + gc.dstx * n;
    ReadsFirst(g, gc.srcx, gc.srcy);
    FirstPoint(k, g, r, dv, dst);
    StretchRows(k, g, gc.dataOut, gc.data, n, gc.width, gc.height, dst, src, dsz, dstPitch, xs, ys, xs.step * n,
        xs.one * n, ys.step * gc.srcPitch, ys.one * gc.srcPitch);
    JobDone(MWROP_COPY, Whole(r), df, dv, g.Image(), View(Upright, g.w, g.h), false, gc.To(psd, n));
    BlitIsStretched(r, df, dv, g, gc.To(psd, n));
  }

  lemma StretchFacts(r: Request, df: Frame, dv: View, g: Stretching)
    requires StretchSound(r, df, dv, g)
    ensures 1 <= df.n == g.sf.n <= 4 && g.Sound() && g.xs.Ready() && g.ys.Ready()
  {
  }

  lemma FirstPoint(k: Job, g: Stretching, r: Request, dv: View, d: int)
    requires Plain(k, g) && k.dg == ConvGrids(Whole(r), dv).0 && d == k.dg.y0 * k.df.pitch + k.dg.x0 * k.df.n
    ensures Points(k, 0, 0, d, 0)
  {
    if k.w > 0 && k.h > 0 {
      k.dg.Stays(k.df, k.w, k.h, 0, 0);
      k.sg.Stays(k.sf, k.w, k.h, 0, 0);
      AddrIsProduct(k.df, k.dg.x0, k.dg.y0);
      AddrIsProduct(k.sf, 0, 0);
    }
  }

  // With the steps that GdStretchBlit prepares for an unflipped stretch, each destination pixel shows the source pixel
  // that contains its point
  lemma PixelSampled(g: Stretching, fx: nat, nx: nat, fy: nat, ny: nat, dx: int, dy: int, i: nat, j: nat)
    requires dx > 0 && dy > 0 && g.xs == Prepared(fx, nx, dx) && g.ys == Prepared(fy, ny, dy) && g.Sound()
        && i < g.w && j < g.h
    ensures g.sf.In((fx + i * nx) / dx, (fy + j * ny) / dy)
    ensures g.Pixel(i, j) == g.sf.At((fx + i * nx) / dx, (fy + j * ny) / dy)
  {
    Samples(fx, nx, dx, i);
    Samples(fy, ny, dy, j);
  }
}
