/** GdRasterOp: raster operations on 32-bit words with partial-word masks. */
module RasterOps {
  import opened Arithmetic
  import opened Bits
  import opened Masks
  import opened Rops
  import opened Images
  import opened Rows

  // A one-bit meaning of a raster operation
  type Meaning = (bool, bool) -> bool

  /** An operation flag together with its one-bit meaning. */
  datatype Flag = Flag(code: nat, f: Meaning)

  type Operation = op: Flag | Means(op) witness Flag(PIX_SRC, (s, d) => s)

  ghost predicate Means(op: Flag) {
    forall s: Word, d: Word, k {:trigger PixOp(op.code, s, d)[k]} | 0 <= k < 32 ::
      PixOp(op.code, s, d)[k] == op.f(s[k], d[k])
  }

  ghost predicate IgnoresSource(f: Meaning) {
    forall a, b, d :: f(a, d) == f(b, d)
  }

  /** A rectangle of destination bits and the displacement to its source bits. */
  datatype Rect = Rect(x: int, y: int, w: int, h: int, dx: int, dy: int) {

    predicate Has(x': int, y': int) {
      x <= x' < x + w && y <= y' < y + h
    }

    // The rectangle lies in d, and the displaced one in s
    predicate Fits(d: Pic, s: Pic) {
      && 0 <= x && 0 <= w && x + w <= 32 * d.wpl && 0 <= y && 0 <= h && y + h <= d.height
      && 0 <= x + dx && x + w + dx <= 32 * s.wpl && 0 <= y + dy && y + h + dy <= s.height
    }

    // The rectangle and the displaced one do not overlap, or the source bits do not matter
    ghost predicate Apart(f: Meaning) {
      dx >= w || -dx >= w || dy >= h || -dy >= h || IgnoresSource(f)
    }
  }

  // The code moves pixels by `dx` bits: by whole words in either byte order, by less only in big-endian order
  predicate Exact(e: Endian, dx: int) { e.Big? || dx % 32 == 0 }

  // d' is d with bit := f(source bit, bit) inside the rectangle, if the code moves pixels by its displacement, and
  // nothing else changed
  ghost predicate Blit(e: Endian, d: Pic, s: Pic, d': Pic, r: Rect, f: Meaning) {
    match d'
    case Pic(wpl', height', words') =>
      && d.Valid() && s.Valid() && r.Fits(d, s)
      && wpl' == d.wpl && height' == d.height && |words'| == |d.words|
      && words'[Row(d.wpl, d.height)..] == d.words[Row(d.wpl, d.height)..]
      && forall x, y | d.In(x, y) ::
           if r.Has(x, y) then Exact(e, r.dx) ==> d'.Bit(e, x, y) == f(s.Bit(e, x + r.dx, y + r.dy), d.Bit(e, x, y))
           else d'.Bit(e, x, y) == d.Bit(e, x, y)
  }

  lemma BlitNothing(e: Endian, d: Pic, s: Pic, r: Rect, f: Meaning)
    requires d.Valid() && s.Valid() && r.Fits(d, s) && (r.w == 0 || r.h == 0)
    ensures Blit(e, d, s, d, r, f)
  {
  }

  // One bit of a blit
  ghost predicate BitDone(e: Endian, d: Pic, s: Pic, d': Pic, r: Rect, f: Meaning, x: int, y: int)
    requires d.Valid() && s.Valid() && d'.Valid() && r.Fits(d, s) && d.In(x, y) && d'.In(x, y)
  {
    if r.Has(x, y) then Exact(e, r.dx) ==> d'.Bit(e, x, y) == f(s.Bit(e, x + r.dx, y + r.dy), d.Bit(e, x, y))
    else d'.Bit(e, x, y) == d.Bit(e, x, y)
  }

  lemma BlitAt(e: Endian, d: Pic, s: Pic, d': Pic, r: Rect, f: Meaning, x: int, y: int)
    requires Blit(e, d, s, d', r, f) && d.In(x, y)
    ensures d'.Valid() && d'.In(x, y) && BitDone(e, d, s, d', r, f, x, y)
  {
  }

  lemma SameWithout(f: Meaning, a: bool, b: bool, d: bool)
    requires IgnoresSource(f)
    ensures f(a, d) == f(b, d)
  {
  }

  // Two parts of a rectangle, done one after the other, are the whole
  lemma BlitThen(e: Endian, d0: Pic, s0: Pic, d1: Pic, s1: Pic, d2: Pic, r1: Rect, r2: Rect, r: Rect, f: Meaning)
    requires Blit(e, d0, s0, d1, r1, f) && Blit(e, d1, s1, d2, r2, f)
    requires r.Fits(d0, s0) && r1.dx == r2.dx == r.dx && r1.dy == r2.dy == r.dy
    requires forall x, y :: r.Has(x, y) == (r1.Has(x, y) || r2.Has(x, y))
    requires forall x, y :: !(r1.Has(x, y) && r2.Has(x, y))
    requires s1 == s0 || (s0 == d0 && s1 == d1 && r.Apart(f))
    ensures Blit(e, d0, s0, d2, r, f)
  {
    hide Blit, Pic.Bit, Row, Exact, IgnoresSource, BitDone, Rect.Apart;
    BlitParts(e, d0, s0, d1, r1, f);
    BlitParts(e, d1, s1, d2, r2, f);
    forall x, y | d0.In(x, y) ensures BitDone(e, d0, s0, d2, r, f, x, y) {
      BlitAt(e, d0, s0, d1, r1, f, x, y);
      BlitAt(e, d1, s1, d2, r2, f, x, y);
      assert r.Has(x, y) == (r1.Has(x, y) || r2.Has(x, y)) && !(r1.Has(x, y) && r2.Has(x, y));
      if r2.Has(x, y) && s1 != s0 {
        BlitAt(e, d0, s0, d1, r1, f, x + r.dx, y + r.dy);
      }
      assert r1.Has(x + r.dx, y + r.dy) ==> r.Has(x + r.dx, y + r.dy);
      BitThen(e, d0, s0, d1, s1, d2, r1, r2, r, f, x, y);
    }
    BlitFrom(e, d0, s0, d2, r, f);
  }

  // A blit but for the bits
  ghost predicate Around(d: Pic, s: Pic, d': Pic, r: Rect) {
    && d.Valid() && s.Valid() && d'.Valid() && r.Fits(d, s)
    && d'.wpl == d.wpl && d'.height == d.height && |d'.words| == |d.words|
    && d'.words[Row(d.wpl, d.height)..] == d.words[Row(d.wpl, d.height)..]
  }

  lemma BlitParts(e: Endian, d: Pic, s: Pic, d': Pic, r: Rect, f: Meaning)
    requires Blit(e, d, s, d', r, f)
    ensures Around(d, s, d', r)
  {
  }

  lemma BlitFrom(e: Endian, d: Pic, s: Pic, d': Pic, r: Rect, f: Meaning)
    requires Around(d, s, d', r) && forall x, y | d.In(x, y) :: BitDone(e, d, s, d', r, f, x, y)
    ensures Blit(e, d, s, d', r, f)
  {
    forall x, y | d.In(x, y)
      ensures if r.Has(x, y)
        then Exact(e, r.dx) ==> d'.Bit(e, x, y) == f(s.Bit(e, x + r.dx, y + r.dy), d.Bit(e, x, y))
        else d'.Bit(e, x, y) == d.Bit(e, x, y)
    {
      assert BitDone(e, d, s, d', r, f, x, y);
    }
  }

  lemma BitThen(e: Endian, d0: Pic, s0: Pic, d1: Pic, s1: Pic, d2: Pic, r1: Rect, r2: Rect, r: Rect, f: Meaning,
                x: int, y: int)
    requires d0.Valid() && s0.Valid() && d1.Valid() && s1.Valid() && d2.Valid() && d0.In(x, y)
    requires r1.Fits(d0, s0) && r2.Fits(d1, s1) && r.Fits(d0, s0) && (r1.dx, r1.dy) == (r2.dx, r2.dy) == (r.dx, r.dy)
    requires d1.wpl == d0.wpl == d2.wpl && d1.height == d0.height == d2.height
    requires BitDone(e, d0, s0, d1, r1, f, x, y) && BitDone(e, d1, s1, d2, r2, f, x, y)
    requires r.Has(x, y) == (r1.Has(x, y) || r2.Has(x, y)) && !(r1.Has(x, y) && r2.Has(x, y))
    requires s1 == s0 || (s0 == d0 && s1 == d1 && r.Apart(f))
    requires r2.Has(x, y) && s1 != s0 ==> BitDone(e, d0, s0, d1, r1, f, x + r.dx, y + r.dy)
    requires r1.Has(x + r.dx, y + r.dy) ==> r.Has(x + r.dx, y + r.dy)
    ensures BitDone(e, d0, s0, d2, r, f, x, y)
  {
    hide Pic.Bit, Row, Exact, IgnoresSource, Pic.Valid;
    if r2.Has(x, y) && s1 != s0 && IgnoresSource(f) {
      SameWithout(f, s1.Bit(e, x + r.dx, y + r.dy), s0.Bit(e, x + r.dx, y + r.dy), d0.Bit(e, x, y));
    }
  }

  lemma BlitNextRow(e: Endian, d0: Pic, s0: Pic, d1: Pic, s1: Pic, d2: Pic, r: Rect, i: nat, f: Meaning)
    requires i < r.h && r.Fits(d0, s0) && (s1 == s0 || (s0 == d0 && s1 == d1 && r.Apart(f)))
    requires Blit(e, d0, s0, d1, r.(h := i), f) && Blit(e, d1, s1, d2, r.(y := r.y + i, h := 1), f)
    ensures Blit(e, d0, s0, d2, r.(h := i + 1), f)
  {
    BlitThen(e, d0, s0, d1, s1, d2, r.(h := i), r.(y := r.y + i, h := 1), r.(h := i + 1), f);
  }

  // r is r1 followed on the right by r2
  predicate Joined(r1: Rect, r2: Rect, r: Rect) {
    && r1.x == r.x && r2.x == r.x + r1.w && r.w == r1.w + r2.w && r1.w >= 0 && r2.w >= 0
    && (r1.y, r1.h, r1.dx, r1.dy) == (r.y, r.h, r.dx, r.dy) && (r2.y, r2.h, r2.dx, r2.dy) == (r.y, r.h, r.dx, r.dy)
  }

  lemma BlitJoined(e: Endian, d0: Pic, s0: Pic, d1: Pic, s1: Pic, d2: Pic, r1: Rect, r2: Rect, r: Rect, f: Meaning)
    requires Joined(r1, r2, r) && r.Fits(d0, s0) && (s1 == s0 || (s0 == d0 && s1 == d1 && r.Apart(f)))
    requires Blit(e, d0, s0, d1, r1, f) && Blit(e, d1, s1, d2, r2, f)
    ensures Blit(e, d0, s0, d2, r, f)
  {
    BlitThen(e, d0, s0, d1, s1, d2, r1, r2, r, f);
  }

  lemma BlitNextColumn(e: Endian, d0: Pic, s0: Pic, d1: Pic, s1: Pic, d2: Pic, r: Rect, a: nat, b: nat, f: Meaning)
    requires a <= b <= r.w && r.Fits(d0, s0) && (s1 == s0 || (s0 == d0 && s1 == d1 && r.Apart(f)))
    requires Blit(e, d0, s0, d1, r.(w := a), f) && Blit(e, d1, s1, d2, r.(x := r.x + a, w := b - a), f)
    ensures Blit(e, d0, s0, d2, r.(w := b), f)
  {
    BlitThen(e, d0, s0, d1, s1, d2, r.(w := a), r.(x := r.x + a, w := b - a), r.(w := b), f);
  }

  /** How a destination-aligned source word is made from the words at psfwpart, psfwfull or pslwpart. */
  datatype Align =
    | Same                          // both left edges have the same word alignment
    | ShiftLeft(n: nat, addb: bool) // << n, with the next word >> 32-n combined in under rmask32[n] if addb
    | ShiftRight(n: nat)            // >> n

  // sword
  function SourceWord(e: Endian, w: Word, next: Word, align: Align): Word {
    match align
    case Same => w
    case ShiftLeft(n, addb) =>
      if addb && n <= 32 then Combine(Shl(w, n), Shr(next, 32 - n), RMask(e, n)) else Shl(w, n)
    case ShiftRight(n) => Shr(w, n)
  }

  // Bits lo to hi of a destination word come from `off` bits further in the source words
  predicate Aligns(align: Align, off: int, lo: int, hi: int) {
    match align
    case Same => off == 0
    case ShiftLeft(n, addb) => 0 < n < 32 && off == n && (hi + n > 32 ==> addb)
    case ShiftRight(n) => 0 < n < 32 && off + n == 0 && n <= lo
  }

  // Shifting words left and merging in the next word shifts their pixel bits left, exactly if bytes are not reordered
  lemma MergeShiftsPixels(e: Endian, n: nat)
    requires 0 < n < 32
    ensures e.Big? <==>
      forall w: Word, next: Word, k | 0 <= k < 32 ::
        Pix(e, SourceWord(e, w, next, ShiftLeft(n, true)), k) ==
          if k + n < 32 then Pix(e, w, k + n) else Pix(e, next, k + n - 32)
  {
    hide Pix, SourceWord;
    if e.Big? {
      forall w: Word, next: Word, k | 0 <= k < 32
        ensures Pix(e, SourceWord(e, w, next, ShiftLeft(n, true)), k) ==
          if k + n < 32 then Pix(e, w, k + n) else Pix(e, next, k + n - 32)
      {
        LeftBit(w, next, n, true, k);
      }
    } else {
      OnesSpoiled(n);
    }
  }

  // Reordered, all ones shifted over all ones leave a zero
  lemma OnesSpoiled(n: nat)
    requires 0 < n < 32
    ensures var w, k := Fill(32, true), if n < 25 then 7 else 0;
      && !Pix(Little, SourceWord(Little, w, w, ShiftLeft(n, true)), k)
      && k + n < 32 && Pix(Little, w, k + n)
  {
  }

  // v on a destination word shows the 32 pixels from pixel n of a source of two words on
  ghost predicate OneWordCopied(e: Endian, n: nat, w: Word, next: Word, d: Word, v: Word) {
    var r, to, from, after := Rect(0, 0, 32, 1, n, 0), Pic(1, 1, [d]), Pic(2, 1, [w, next]), Pic(1, 1, [v]);
    && to.Valid() && from.Valid() && after.Valid() && r.Fits(to, from)
    && forall x, y | r.Has(x, y) :: after.Bit(e, x, y) == from.Bit(e, x + r.dx, y + r.dy)
  }

  // The unaligned path on one destination word, for a source n bits further
  ghost predicate OneWordRight(e: Endian, n: nat, w: Word, next: Word, d: Word) {
    OneWordCopied(e, n, w, next, d, SourceWord(e, w, next, ShiftLeft(n, true)))
  }

  // So with the byte-reordered masks, every unequal alignment blits some images wrongly
  lemma OneWordBlits(e: Endian, n: nat)
    requires 0 < n < 32
    ensures e.Big? <==> forall w: Word, next: Word, d: Word :: OneWordRight(e, n, w, next, d)
  {
    hide Pix, SourceWord;
    MergeShiftsPixels(e, n);
    forall w: Word, next: Word, d: Word
      ensures OneWordRight(e, n, w, next, d) <==>
        forall k | 0 <= k < 32 :: Pix(e, SourceWord(e, w, next, ShiftLeft(n, true)), k)
          == if k + n < 32 then Pix(e, w, k + n) else Pix(e, next, k + n - 32)
    {
      OneWordPixels(e, n, w, next, d, SourceWord(e, w, next, ShiftLeft(n, true)));
    }
    if e.Little? {
      var w: Word, next: Word, k :| 0 <= k < 32 && Pix(e, SourceWord(e, w, next, ShiftLeft(n, true)), k)
        != if k + n < 32 then Pix(e, w, k + n) else Pix(e, next, k + n - 32);
      assert !OneWordRight(e, n, w, next, w);
    }
  }

  lemma OneWordPixels(e: Endian, n: nat, w: Word, next: Word, d: Word, v: Word)
    requires 0 < n < 32
    ensures OneWordCopied(e, n, w, next, d, v) <==>
      forall k | 0 <= k < 32 :: Pix(e, v, k) == if k + n < 32 then Pix(e, w, k + n) else Pix(e, next, k + n - 32)
  {
    hide Pix, Row, Pic.Bit, Pic.Valid;
    var d0, s, d1, r := Pic(1, 1, [d]), Pic(2, 1, [w, next]), Pic(1, 1, [v]), Rect(0, 0, 32, 1, n, 0);
    WordPic(e, d);
    WordPic(e, v);
    TwoWordsPic(e, w, next);
    assert d1.words[1..] == d0.words[1..];
    forall k | 0 <= k < 32
      ensures d0.In(k, 0) && r.Has(k, 0) && d1.Bit(e, k, 0) == Pix(e, v, k)
      ensures s.In(k + n, 0) && s.Bit(e, k + n, 0) == if k + n < 32 then Pix(e, w, k + n) else Pix(e, next, k + n - 32)
    {
    }
  }

  lemma WordPic(e: Endian, v: Word)
    ensures var p := Pic(1, 1, [v]);
      p.Valid() && Row(1, 1) == 1 && forall k | 0 <= k < 32 :: p.Bit(e, k, 0) == Pix(e, v, k)
  {
  }

  lemma TwoWordsPic(e: Endian, w: Word, next: Word)
    ensures var p := Pic(2, 1, [w, next]);
      p.Valid() && forall k | 0 <= k < 64 :: p.Bit(e, k, 0) == if k < 32 then Pix(e, w, k) else Pix(e, next, k - 32)
  {
  }

  // w is word cs of row y, and next is the word after it if there is one
  ghost predicate Fetched(s: Pic, w: Word, next: Word, p: int, cs: int, y: int) {
    && s.Valid() && s.In(32 * cs, y) && p == Row(s.wpl, y) + cs
    && 0 <= p < |s.words| && w == s.words[p] && (p + 1 < |s.words| ==> next == s.words[p + 1])
  }

  // Which bit of the two words a bit of the shifted and merged word is
  lemma ShiftedBit(e: Endian, w: Word, next: Word, align: Align, off: int, lo: int, hi: int, k: int)
    requires 0 <= lo <= k < hi <= 32 && Aligns(align, off, lo, hi) && Exact(e, off)
    ensures -32 < off < 32 && 0 <= k + off && (k + off >= 32 ==> off > 0)
    ensures Pix(e, SourceWord(e, w, next, align), k)
      == if k + off < 32 then Pix(e, w, k + off) else Pix(e, next, k + off - 32)
  {
    hide *;
    AlignsExactly(e, align, off, lo, hi);
    match align {
      case Same => SameBit(e, w, next);
      case ShiftLeft(n, addb) => LeftBit(w, next, n, addb, k);
      case ShiftRight(n) => RightBit(w, next, n, k);
    }
  }

  lemma AlignsExactly(e: Endian, align: Align, off: int, lo: int, hi: int)
    requires Aligns(align, off, lo, hi) && Exact(e, off)
    ensures match align
      case Same => off == 0
      case ShiftLeft(n, addb) => e == Big && 0 < n < 32 && off == n && (hi + n > 32 ==> addb)
      case ShiftRight(n) => e == Big && 0 < n < 32 && off + n == 0 && n <= lo
  {
  }

  lemma SameBit(e: Endian, w: Word, next: Word)
    ensures SourceWord(e, w, next, Same) == w
  {
  }

  lemma LeftBit(w: Word, next: Word, n: nat, addb: bool, k: nat)
    requires 0 < n < 32 && k < 32 && (k + n >= 32 ==> addb)
    ensures Pix(Big, SourceWord(Big, w, next, ShiftLeft(n, addb)), k)
      == if k + n < 32 then Pix(Big, w, k + n) else Pix(Big, next, k + n - 32)
  {
  }

  lemma RightBit(w: Word, next: Word, n: nat, k: nat)
    requires n <= k < 32
    ensures Pix(Big, SourceWord(Big, w, next, ShiftRight(n)), k) == Pix(Big, w, k - n)
  {
  }

  lemma SourceWordBit(e: Endian, s: Pic, w: Word, next: Word, p: int, align: Align, cs: int, y: int, off: int, lo: int,
                      hi: int, k: int)
    requires Fetched(s, w, next, p, cs, y)
    requires 0 <= lo <= k < hi <= 32 && s.In(32 * cs + off + k, y)
    requires Aligns(align, off, lo, hi) && Exact(e, off)
    ensures Pix(e, SourceWord(e, w, next, align), k) == s.Bit(e, 32 * cs + off + k, y)
  {
    hide Pix, SourceWord, Row, Aligns;
    ShiftedBit(e, w, next, align, off, lo, hi, k);
    if k + off < 32 {
      s.BitOfWord(e, p, cs, k + off, 32 * cs + off + k, y);
    } else {
      s.BitOfWord(e, p + 1, cs + 1, k + off - 32, 32 * cs + off + k, y);
    }
  }

  // COMBINE_PARTIAL(d, d op s, m)
  lemma OperateBit(e: Endian, op: Operation, s: Word, d: Word, m: Word, k: int)
    requires 0 <= k < 32
    ensures Pix(e, Combine(d, PixOp(op.code, s, d), m), k) ==
      if Pix(e, m, k) then op.f(Pix(e, s, k), Pix(e, d, k)) else Pix(e, d, k)
  {
    CombineBits(d, PixOp(op.code, s, d), m);
  }

  // The columns x to x+w lie in destination word c, mask selects them, and their source bits
  // are read with `align` from word cs (and the next)
  ghost predicate Lane(e: Endian, mask: Word, align: Align, c: int, cs: int, off: int, x: int, w: int, dx: int) {
    && 0 < w && 32 * c <= x && x + w <= 32 * c + 32
    && (forall k | 0 <= k < 32 :: Pix(e, mask, k) == (x <= 32 * c + k < x + w))
    && 32 * c + dx == 32 * cs + off && Aligns(align, off, x - 32 * c, x + w - 32 * c)
  }

  // r is one row; pd points at word c of it and ps at word cs of its source row
  ghost predicate Covers(d: Pic, pd: int, s: Pic, ps: int, c: int, cs: int, r: Rect) {
    && d.Valid() && s.Valid() && r.Fits(d, s) && r.h == 1
    && 0 <= cs < s.wpl && pd == Row(d.wpl, r.y) + c && ps == Row(s.wpl, r.y + r.dy) + cs
  }

  lemma NewWordBit(e: Endian, op: Operation, d: Pic, pd: int, mask: Word, s: Pic, ps: int, align: Align, w: Word,
                   next: Word, c: int, cs: int, off: int, r: Rect, x: int)
    requires Lane(e, mask, align, c, cs, off, r.x, r.w, r.dx) && Covers(d, pd, s, ps, c, cs, r)
    requires Fetched(s, w, next, ps, cs, r.y + r.dy)
    requires 32 * c <= x < 32 * c + 32
    ensures 0 <= pd < |d.words| && d.In(x, r.y)
    ensures var v := Combine(d.words[pd], PixOp(op.code, SourceWord(e, w, next, align), d.words[pd]), mask);
      if r.Has(x, r.y)
      then Exact(e, r.dx) ==> Pix(e, v, x % 32) == op.f(s.Bit(e, x + r.dx, r.y + r.dy), d.Bit(e, x, r.y))
      else Pix(e, v, x % 32) == d.Bit(e, x, r.y)
  {
    d.Index(c, r.y);
    var sword, k := SourceWord(e, w, next, align), x % 32;
    assert x == 32 * c + k;
    d.BitOfWord(e, pd, c, k, x, r.y);
    OperateBit(e, op, sword, d.words[pd], mask, k);
    if Pix(e, mask, k) && Exact(e, r.dx) {
      SameExact(e, cs - c, off, r.dx);
      SourceWordBit(e, s, w, next, ps, align, cs, r.y + r.dy, off, r.x - 32 * c, r.x + r.w - 32 * c, k);
      assert 32 * cs + off + k == x + r.dx;
    }
  }

  lemma SameExact(e: Endian, n: int, off: int, dx: int)
    requires dx == 32 * n + off
    ensures Exact(e, dx) == Exact(e, off)
  {
  }

  // Storing a word with the right bits blits the part r of it
  lemma StoreWord(e: Endian, d: Pic, pd: int, s: Pic, c: int, r: Rect, f: Meaning, v: Word)
    requires d.Valid() && s.Valid() && r.Fits(d, s) && r.h == 1 && 0 < r.w
    requires 32 * c <= r.x && r.x + r.w <= 32 * c + 32 && pd == Row(d.wpl, r.y) + c
    requires forall x | d.In(x, r.y) && x / 32 == c ::
               if r.Has(x, r.y)
               then Exact(e, r.dx) ==> Pix(e, v, x % 32) == f(s.Bit(e, x + r.dx, r.y + r.dy), d.Bit(e, x, r.y))
               else Pix(e, v, x % 32) == d.Bit(e, x, r.y)
    ensures 0 <= pd < |d.words| && Blit(e, d, s, d.(words := d.words[pd := v]), r, f)
  {
    d.Index(c, r.y);
    var d' := d.(words := d.words[pd := v]);
    assert d'.words[Row(d.wpl, d.height)..] == d.words[Row(d.wpl, d.height)..];
    forall x, y | d.In(x, y)
      ensures if r.Has(x, y) then Exact(e, r.dx) ==> d'.Bit(e, x, y) == f(s.Bit(e, x + r.dx, y + r.dy), d.Bit(e, x, y))
        else d'.Bit(e, x, y) == d.Bit(e, x, y)
    {
      d.BitAfterPut(e, pd, v, c, r.y, x, y);
    }
  }

  lemma BlitWord(e: Endian, op: Operation, d: Pic, pd: int, mask: Word, s: Pic, ps: int, align: Align, w: Word,
                 next: Word, c: int, cs: int, off: int, r: Rect, v: Word)
    requires Lane(e, mask, align, c, cs, off, r.x, r.w, r.dx) && Covers(d, pd, s, ps, c, cs, r)
    requires Fetched(s, w, next, ps, cs, r.y + r.dy)
    requires 0 <= pd < |d.words|
    requires v == Combine(d.words[pd], PixOp(op.code, SourceWord(e, w, next, align), d.words[pd]), mask)
    ensures Blit(e, d, s, d.(words := d.words[pd := v]), r, op.f)
  {
    forall x | d.In(x, r.y) && x / 32 == c
      ensures if r.Has(x, r.y)
        then Exact(e, r.dx) ==> Pix(e, v, x % 32) == op.f(s.Bit(e, x + r.dx, r.y + r.dy), d.Bit(e, x, r.y))
        else Pix(e, v, x % 32) == d.Bit(e, x, r.y)
    {
      NewWordBit(e, op, d, pd, mask, s, ps, align, w, next, c, cs, off, r, x);
    }
    StoreWord(e, d, pd, s, c, r, op.f, v);
  }

  // *(ps + 1); `beyond` is whatever lies in memory after the last word of the image
  function NextWord(data: array<Word>, ps: int, beyond: Word): Word
    reads data
  {
    if 0 <= ps + 1 < data.Length then data[ps + 1] else beyond
  }

  // One destination word under a mask
  method BlitPart(e: Endian, op: Operation, dst: Image, pd: int, mask: Word, src: Image, ps: int, align: Align,
                  beyond: Word, ghost c: int, ghost cs: int, ghost off: int, ghost r: Rect)
    requires Lane(e, mask, align, c, cs, off, r.x, r.w, r.dx)
    requires Covers(dst.View(), pd, src.View(), ps, c, cs, r)
    modifies dst.data
    ensures Blit(e, old(dst.View()), old(src.View()), dst.View(), r, op.f)
  {
    dst.View().Index(c, r.y);
    src.View().Index(cs, r.y + r.dy);
    var sword := SourceWord(e, src.data[ps], NextWord(src.data, ps, beyond), align);
    var v := Combine(dst.data[pd], PixOp(op.code, sword, dst.data[pd]), mask);
    BlitWord(e, op, dst.View(), pd, mask, src.View(), ps, align, src.data[ps], NextWord(src.data, ps, beyond), c, cs,
        off, r, v);
    dst.data[pd] := v;
    assert dst.data[..] == old(dst.data[..])[pd := v];
  }

  // One whole destination word
  method BlitFull(e: Endian, op: Operation, dst: Image, pd: int, src: Image, ps: int, align: Align, beyond: Word,
                  ghost c: int, ghost cs: int, ghost off: int, ghost r: Rect)
    requires r.x == 32 * c && r.w == 32 && 32 * c + r.dx == 32 * cs + off && Aligns(align, off, 0, 32)
    requires Covers(dst.View(), pd, src.View(), ps, c, cs, r)
    modifies dst.data
    ensures Blit(e, old(dst.View()), old(src.View()), dst.View(), r, op.f)
  {
    dst.View().Index(c, r.y);
    src.View().Index(cs, r.y + r.dy);
    var sword := SourceWord(e, src.data[ps], NextWord(src.data, ps, beyond), align);
    var v := PixOp(op.code, sword, dst.data[pd]);
    assert v == Combine(dst.data[pd], v, Fill(32, true));
    BlitWord(e, op, dst.View(), pd, Fill(32, true), src.View(), ps, align, src.data[ps], NextWord(src.data, ps, beyond),
        c, cs, off, r, v);
    dst.data[pd] := v;
    assert dst.data[..] == old(dst.data[..])[pd := v];
  }

  ghost predicate MayBlit(dst: Image, src: Image, r: Rect, f: Meaning)
    reads dst.data, src.data
  {
    match r
    case Rect(_, _, _, _, _, _) =>
      && dst.Valid() && src.Valid() && r.Fits(dst.View(), src.View())
      && if src == dst then r.Apart(f) else src.data != dst.data
  }

  // "do the first partial word" and "do the last partial word", in every row
  method PartialColumn(e: Endian, op: Operation, dst: Image, pd0: int, mask: Word, dh: int, src: Image, ps0: int,
                       align: Align, beyond: Word, ghost c: int, ghost cs: int, ghost off: int, ghost r: Rect)
    requires MayBlit(dst, src, r, op.f) && Lane(e, mask, align, c, cs, off, r.x, r.w, r.dx)
    requires r.h == dh && 0 <= cs < src.wpl && pd0 == Row(dst.wpl, r.y) + c && ps0 == Row(src.wpl, r.y + r.dy) + cs
    modifies dst.data
    ensures Blit(e, old(dst.View()), old(src.View()), dst.View(), r, op.f)
    ensures src != dst ==> src.View() == old(src.View())
  {
    hide Blit, Lane, Aligns, Means, Rect.Apart, Row, Rect.Has;
    var pd, ps := pd0, ps0;
    BlitNothing(e, dst.View(), src.View(), r.(h := 0), op.f);
    for i := 0 to dh
      invariant pd == Row(dst.wpl, r.y + i) + c && ps == Row(src.wpl, r.y + r.dy + i) + cs
      invariant Blit(e, old(dst.View()), old(src.View()), dst.View(), r.(h := i), op.f)
      invariant src != dst ==> src.View() == old(src.View())
    {
      ghost var d1, s1 := dst.View(), src.View();
      BlitPart(e, op, dst, pd, mask, src, ps, align, beyond, c, cs, off, r.(y := r.y + i, h := 1));
      BlitNextRow(e, old(dst.View()), old(src.View()), d1, s1, dst.View(), r, i, op.f);
      NextRow(dst.wpl, r.y + i);
      NextRow(src.wpl, r.y + r.dy + i);
      pd := pd + dst.wpl;
      ps := ps + src.wpl;
    }
  }

  lemma AlignsOff(align: Align, off: int)
    requires Aligns(align, off, 0, 32)
    ensures -32 < off < 32
  {
  }

  // n whole words of one row
  method FullRow(e: Endian, op: Operation, dst: Image, pd: int, n: int, src: Image, ps: int, align: Align, beyond: Word,
                 ghost c: int, ghost cs: int, ghost off: int, ghost r: Rect)
    requires MayBlit(dst, src, r, op.f) && Covers(dst.View(), pd, src.View(), ps, c, cs, r)
    requires 0 < n && r.x == 32 * c && r.w == 32 * n && 32 * c + r.dx == 32 * cs + off && Aligns(align, off, 0, 32)
    modifies dst.data
    ensures Blit(e, old(dst.View()), old(src.View()), dst.View(), r, op.f)
    ensures src != dst ==> src.View() == old(src.View())
  {
    hide Blit, Aligns, Means;
    AlignsOff(align, off);
    BlitNothing(e, dst.View(), src.View(), r.(w := 0), op.f);
    for j := 0 to n
      invariant Blit(e, old(dst.View()), old(src.View()), dst.View(), r.(w := 32 * j), op.f)
      invariant src != dst ==> src.View() == old(src.View())
    {
      ghost var d1, s1 := dst.View(), src.View();
      BlitFull(e, op, dst, pd + j, src, ps + j, align, beyond, c + j, cs + j, off, r.(x := r.x + 32 * j, w := 32));
      BlitNextColumn(e, old(dst.View()), old(src.View()), d1, s1, dst.View(), r, 32 * j, 32 * (j + 1), op.f);
    }
  }

  // "do the full words", in every row
  method FullColumns(e: Endian, op: Operation, dst: Image, pd0: int, n: int, dh: int, src: Image, ps0: int,
                     align: Align, beyond: Word, ghost c: int, ghost cs: int, ghost off: int, ghost r: Rect)
    requires MayBlit(dst, src, r, op.f)
    requires 0 < n && r.x == 32 * c && r.w == 32 * n && 32 * c + r.dx == 32 * cs + off && Aligns(align, off, 0, 32)
    requires r.h == dh && 0 <= cs < src.wpl && pd0 == Row(dst.wpl, r.y) + c && ps0 == Row(src.wpl, r.y + r.dy) + cs
    modifies dst.data
    ensures Blit(e, old(dst.View()), old(src.View()), dst.View(), r, op.f)
    ensures src != dst ==> src.View() == old(src.View())
  {
    hide Blit, Lane, Aligns, Means, Row, Rect.Has;
    var pd, ps := pd0, ps0;
    BlitNothing(e, dst.View(), src.View(), r.(h := 0), op.f);
    for i := 0 to dh
      invariant pd == Row(dst.wpl, r.y + i) + c && ps == Row(src.wpl, r.y + r.dy + i) + cs
      invariant Blit(e, old(dst.View()), old(src.View()), dst.View(), r.(h := i), op.f)
      invariant src != dst ==> src.View() == old(src.View())
    {
      ghost var d1, s1 := dst.View(), src.View();
      FullRow(e, op, dst, pd, n, src, ps, align, beyond, c, cs, off, r.(y := r.y + i, h := 1));
      BlitNextRow(e, old(dst.View()), old(src.View()), d1, s1, dst.View(), r, i, op.f);
      NextRow(dst.wpl, r.y + i);
      NextRow(src.wpl, r.y + r.dy + i);
      pd := pd + dst.wpl;
      ps := ps + src.wpl;
    }
  }

  /** The pointers, masks and shifts that the preliminary calculations of a routine come up with. */
  datatype Edge = NoEdge | Edge(pd: int, ps: int, mask: Word, align: Align)
  datatype Middle = NoMiddle | Middle(pd: int, ps: int, n: int, align: Align)

  function Off(align: Align): int {
    match align
    case Same => 0
    case ShiftLeft(n, _) => n
    case ShiftRight(n) => 0 - n
  }

  // The word column of the source that lines up with word column c of the destination
  function SourceColumn(align: Align, c: int, dx: int): int {
    (32 * c + dx - Off(align)) / 32
  }

  ghost predicate EdgeFits(e: Endian, dwpl: nat, swpl: nat, g: Edge, r: Rect) {
    match g
    case NoEdge => r.w == 0
    case Edge(pd, ps, mask, align) =>
      var c, cs := r.x / 32, SourceColumn(align, r.x / 32, r.dx);
      && Lane(e, mask, align, c, cs, Off(align), r.x, r.w, r.dx) && 0 <= cs < swpl
      && 0 <= r.y && 0 <= r.y + r.dy && pd == Row(dwpl, r.y) + c && ps == Row(swpl, r.y + r.dy) + cs
  }

  ghost predicate MiddleFits(e: Endian, dwpl: nat, swpl: nat, g: Middle, r: Rect) {
    match g
    case NoMiddle => r.w == 0
    case Middle(pd, ps, n, align) =>
      var c, cs := r.x / 32, SourceColumn(align, r.x / 32, r.dx);
      && 0 < n && r.x == 32 * c && r.w == 32 * n
      && 32 * c + r.dx == 32 * cs + Off(align) && Aligns(align, Off(align), 0, 32) && 0 <= cs < swpl
      && 0 <= r.y && 0 <= r.y + r.dy && pd == Row(dwpl, r.y) + c && ps == Row(swpl, r.y + r.dy) + cs
  }

  method DoEdge(e: Endian, op: Operation, dst: Image, dh: int, src: Image, beyond: Word, g: Edge, ghost r: Rect)
    requires MayBlit(dst, src, r, op.f) && r.h == dh
    requires EdgeFits(e, dst.wpl, src.wpl, g, r)
    modifies dst.data
    ensures Blit(e, old(dst.View()), old(src.View()), dst.View(), r, op.f)
    ensures src != dst ==> src.View() == old(src.View())
  {
    if g.Edge? {
      ghost var c := r.x / 32;
      PartialColumn(e, op, dst, g.pd, g.mask, dh, src, g.ps, g.align, beyond, c, SourceColumn(g.align, c, r.dx),
          Off(g.align), r);
    }
  }

  method DoMiddle(e: Endian, op: Operation, dst: Image, dh: int, src: Image, beyond: Word, g: Middle, ghost r: Rect)
    requires MayBlit(dst, src, r, op.f) && r.h == dh
    requires MiddleFits(e, dst.wpl, src.wpl, g, r)
    modifies dst.data
    ensures Blit(e, old(dst.View()), old(src.View()), dst.View(), r, op.f)
    ensures src != dst ==> src.View() == old(src.View())
  {
    if g.Middle? {
      ghost var c := r.x / 32;
      FullColumns(e, op, dst, g.pd, g.n, dh, src, g.ps, g.align, beyond, c, SourceColumn(g.align, c, r.dx),
          Off(g.align), r);
    }
  }

  method MiddleAndLast(e: Endian, op: Operation, dst: Image, dh: int, src: Image, beyond: Word, middle: Middle,
                       last: Edge, ghost r2: Rect, ghost r3: Rect, ghost r: Rect)
    requires MayBlit(dst, src, r, op.f) && r.h == dh && Joined(r2, r3, r)
    requires MiddleFits(e, dst.wpl, src.wpl, middle, r2) && EdgeFits(e, dst.wpl, src.wpl, last, r3)
    modifies dst.data
    ensures Blit(e, old(dst.View()), old(src.View()), dst.View(), r, op.f)
    ensures src != dst ==> src.View() == old(src.View())
  {
    hide Blit, EdgeFits, MiddleFits, Means, Row;
    DoMiddle(e, op, dst, dh, src, beyond, middle, r2);
    ghost var d1, s1 := dst.View(), src.View();
    DoEdge(e, op, dst, dh, src, beyond, last, r3);
    BlitJoined(e, old(dst.View()), old(src.View()), d1, s1, dst.View(), r2, r3, r, op.f);
  }

  // The plan covers the rectangle: columns r1, r2 and r3 from left to right
  ghost predicate Plan(e: Endian, dwpl: nat, swpl: nat, first: Edge, middle: Middle, last: Edge, r1: Rect, r2: Rect,
                       r3: Rect, r: Rect) {
    && Joined(r2, r3, r.(x := r2.x, w := r2.w + r3.w)) && Joined(r1, r.(x := r2.x, w := r2.w + r3.w), r)
    && EdgeFits(e, dwpl, swpl, first, r1) && MiddleFits(e, dwpl, swpl, middle, r2) && EdgeFits(e, dwpl, swpl, last, r3)
  }

  // The three loops of rasteropVAlignedLow and rasteropGeneralLow
  method Columns(e: Endian, op: Operation, dst: Image, dh: int, src: Image, beyond: Word, first: Edge, middle: Middle,
                 last: Edge, ghost r1: Rect, ghost r2: Rect, ghost r3: Rect, ghost r: Rect)
    requires MayBlit(dst, src, r, op.f) && r.h == dh
    requires Plan(e, dst.wpl, src.wpl, first, middle, last, r1, r2, r3, r)
    modifies dst.data
    ensures Blit(e, old(dst.View()), old(src.View()), dst.View(), r, op.f)
  {
    hide Blit, EdgeFits, MiddleFits, Means, Row;
    DoEdge(e, op, dst, dh, src, beyond, first, r1);
    ghost var d1, s1 := dst.View(), src.View();
    ghost var rest := r.(x := r2.x, w := r2.w + r3.w);
    MiddleAndLast(e, op, dst, dh, src, beyond, middle, last, r2, r3, rest);
    BlitJoined(e, old(dst.View()), old(src.View()), d1, s1, dst.View(), r1, rest, r, op.f);
  }

  // data + wpl * y + (x >> 5)
  method WordAt(wpl: nat, x: nat, y: nat) returns (p: nat)
    ensures p == Row(wpl, y) + x / 32
  {
    RowIsProduct(wpl, y);
    p := wpl * y + x / 32;
  }

  // rmask32 and lmask32 combined select the bits from lo up to hi
  lemma MaskPix(e: Endian, lo: nat, hi: nat, m: Word)
    requires lo <= hi <= 32
    requires m == And(RMask(e, 32 - lo), LMask(e, hi)) || (hi == 32 && m == RMask(e, 32 - lo)) || (lo == 0
        && m == LMask(e, hi))
    ensures forall k | 0 <= k < 32 :: Pix(e, m, k) == (lo <= k < hi)
  {
    forall k | 0 <= k < 32 ensures Pix(e, m, k) == (lo <= k < hi) {
      PosInvolution(e, k);
    }
  }

  // dfwbits: the destination bits of a partial first word, 0 if the rectangle starts on a word boundary
  function Overhang(x: nat): nat {
    if x % 32 == 0 then 0 else 32 - x % 32
  }

  // Of those, the ones in the rectangle
  function FirstWidth(dx: nat, dw: nat): nat {
    if dw < Overhang(dx) then dw else Overhang(dx)
  }

  // The alignment serves the first word of the rectangle
  predicate AlignsFirst(align: Align, dx: nat, dw: nat, sx: nat) {
    && 32 * (dx / 32) + sx - dx == 32 * (sx / 32) + Off(align)
    && Aligns(align, Off(align), dx % 32, dx % 32 + FirstWidth(dx, dw))
  }

  // The alignments serve the full words, and the last word with `bits` bits, when source bit sx meets a word boundary
  predicate AlignsRest(walign: Align, lalign: Align, sx: nat, bits: nat) {
    && sx == 32 * (sx / 32) + Off(walign) && Off(lalign) == Off(walign)
    && Aligns(walign, Off(walign), 0, 32) && Aligns(lalign, Off(lalign), 0, bits)
  }

  // The first word, if it is partial; doubly partial if the rectangle ends in it
  method FirstPart(e: Endian, dwpl: nat, swpl: nat, dx: nat, dy: nat, dw: nat, sx: nat, sy: nat, align: Align,
                   ghost r: Rect)
    returns (g: Edge)
    requires 0 < dw && dx + dw <= 32 * dwpl && sx + dw <= 32 * swpl
    requires (r.x, r.y, r.dx, r.dy) == (dx, dy, sx - dx, sy - dy) && r.w == FirstWidth(dx, dw)
    requires dx % 32 != 0 ==> AlignsFirst(align, dx, dw, sx)
    ensures EdgeFits(e, dwpl, swpl, g, r)
  {
    if dx % 32 == 0 {
      return NoEdge;
    }
    var pdfwpart := WordAt(dwpl, dx, dy);
    var psfwpart := WordAt(swpl, sx, sy);
    var dfwbits := 32 - dx % 32;
    var dfwmask := RMask(e, dfwbits);
    if dw < dfwbits {
      dfwmask := And(dfwmask, LMask(e, 32 - dfwbits + dw));
    }
    MaskPix(e, dx % 32, dx % 32 + r.w, dfwmask);
    g := Edge(pdfwpart, psfwpart, dfwmask, align);
  }

  // n full words from bit x on
  method FullPart(e: Endian, dwpl: nat, swpl: nat, x: nat, dy: nat, n: nat, sx: nat, sy: nat, align: Align,
                  ghost r: Rect)
    returns (g: Middle)
    requires x % 32 == 0 && 0 < n && sx + 32 * n <= 32 * swpl
    requires (r.x, r.y, r.w, r.dx, r.dy) == (x, dy, 32 * n, sx - x, sy - dy)
    requires sx == 32 * (sx / 32) + Off(align) && Aligns(align, Off(align), 0, 32)
    ensures MiddleFits(e, dwpl, swpl, g, r)
  {
    var pdfwfull := WordAt(dwpl, x, dy);
    var psfwfull := WordAt(swpl, sx, sy);
    g := Middle(pdfwfull, psfwfull, n, align);
  }

  // The last partial word, holding `bits` bits from bit x on
  method LastPart(e: Endian, dwpl: nat, swpl: nat, x: nat, dy: nat, bits: nat, sx: nat, sy: nat, align: Align,
                  ghost r: Rect)
    returns (g: Edge)
    requires x % 32 == 0 && 0 < bits < 32 && sx + bits <= 32 * swpl
    requires (r.x, r.y, r.w, r.dx, r.dy) == (x, dy, bits, sx - x, sy - dy)
    requires sx == 32 * (sx / 32) + Off(align) && Aligns(align, Off(align), 0, bits)
    ensures EdgeFits(e, dwpl, swpl, g, r)
  {
    var pdlwpart := WordAt(dwpl, x, dy);
    var pslwpart := WordAt(swpl, sx, sy);
    var dlwmask := LMask(e, bits);
    MaskPix(e, 0, bits, dlwmask);
    g := Edge(pdlwpart, pslwpart, dlwmask, align);
  }

  /** Preliminary calculations: which words are partial, and where they are. */
  method PlanColumns(e: Endian, dwpl: nat, swpl: nat, dx: nat, dy: nat, dw: nat, sx: nat, sy: nat, falign: Align,
                     walign: Align, lalign: Align, ghost dh: int)
    returns (first: Edge, middle: Middle, last: Edge, ghost r1: Rect, ghost r2: Rect, ghost r3: Rect)
    requires 0 < dw && dx + dw <= 32 * dwpl && sx + dw <= 32 * swpl
    requires dx % 32 != 0 ==> AlignsFirst(falign, dx, dw, sx)
    requires AlignsRest(walign, lalign, sx + Overhang(dx), (dx + dw) % 32)
    ensures Plan(e, dwpl, swpl, first, middle, last, r1, r2, r3, Rect(dx, dy, dw, dh, sx - dx, sy - dy))
  {
    hide EdgeFits, MiddleFits, AlignsFirst, AlignsRest, Overhang, FirstWidth;
    ghost var r := Rect(dx, dy, dw, dh, sx - dx, sy - dy);
    var w := FirstWidth(dx, dw);
    r1 := r.(w := w);
    first := FirstPart(e, dwpl, swpl, dx, dy, dw, sx, sy, falign, r1);
    CutWidth(dx, dw);
    middle, last, r2, r3 := PlanRest(e, dwpl, swpl, dx + w, dy, dw - w, sx + w, sy, walign, lalign, dh);
    assert r.(x := r2.x, w := r2.w + r3.w) == Rect(dx + w, dy, dw - w, dh, sx - dx, sy - dy);
  }

  // The full words and the last partial word of w columns from bit x on
  method PlanRest(e: Endian, dwpl: nat, swpl: nat, x: nat, dy: nat, w: nat, sx: nat, sy: nat, walign: Align,
                  lalign: Align, ghost dh: int)
    returns (middle: Middle, last: Edge, ghost r2: Rect, ghost r3: Rect)
    requires x + w <= 32 * dwpl && sx + w <= 32 * swpl
    requires w > 0 ==> x % 32 == 0 && AlignsRest(walign, lalign, sx, w % 32)
    ensures MiddleFits(e, dwpl, swpl, middle, r2) && EdgeFits(e, dwpl, swpl, last, r3)
    ensures Joined(r2, r3, Rect(x, dy, w, dh, sx - x, sy - dy))
  {
    hide EdgeFits, MiddleFits, Aligns, AlignsRest;
    middle, last := NoMiddle, NoEdge;
    var dnfullw, dlwbits := w / 32, w % 32;
    RestAligned(walign, lalign, sx, dlwbits);
    r2 := Rect(x, dy, 32 * dnfullw, dh, sx - x, sy - dy);
    r3 := r2.(x := x + 32 * dnfullw, w := dlwbits);
    NoParts(e, dwpl, swpl, r2);
    NoParts(e, dwpl, swpl, r3);
    if dnfullw != 0 {
      middle := FullPart(e, dwpl, swpl, x, dy, dnfullw, sx, sy, walign, r2);
    }
    if dlwbits != 0 {
      CutSource(sx, dnfullw, Off(walign));
      last := LastPart(e, dwpl, swpl, x + 32 * dnfullw, dy, dlwbits, sx + 32 * dnfullw, sy, lalign, r3);
    }
  }

  lemma RestAligned(walign: Align, lalign: Align, sx: nat, bits: nat)
    ensures AlignsRest(walign, lalign, sx, bits) ==>
      && sx == 32 * (sx / 32) + Off(walign) && Off(lalign) == Off(walign)
      && Aligns(walign, Off(walign), 0, 32) && Aligns(lalign, Off(lalign), 0, bits)
  {
  }

  lemma NoParts(e: Endian, dwpl: nat, swpl: nat, r: Rect)
    ensures r.w == 0 ==> EdgeFits(e, dwpl, swpl, NoEdge, r) && MiddleFits(e, dwpl, swpl, NoMiddle, r)
  {
  }

  // Cutting off the first word's columns, which reach a word boundary, keeps the last word's bits
  lemma CutWidth(dx: nat, dw: nat)
    ensures 0 <= FirstWidth(dx, dw) <= dw && (dx % 32 == 0 ==> FirstWidth(dx, dw) == 0)
    ensures var w := FirstWidth(dx, dw);
      w < dw ==> w == Overhang(dx) && (dx + w) % 32 == 0 && (dw - w) % 32 == (dx + dw) % 32
  {
  }

  lemma CutSource(sx: nat, n: nat, off: int)
    requires sx == 32 * (sx / 32) + off
    ensures sx + 32 * n == 32 * ((sx + 32 * n) / 32) + off
  {
    assert (sx + 32 * n) / 32 == sx / 32 + n;
  }

  /** Left edges with the same word alignment. */
  method RasteropVAlignedLow(e: Endian, dst: Image, dx: int, dy: int, dw: int, dh: int, op: Operation, src: Image,
                             sx: int, sy: int, beyond: Word)
    requires MayBlit(dst, src, Rect(dx, dy, dw, dh, sx - dx, sy - dy), op.f) && 0 < dw && 0 < dh
    requires dx % 32 == sx % 32
    modifies dst.data
    ensures Blit(e, old(dst.View()), old(src.View()), dst.View(), Rect(dx, dy, dw, dh, sx - dx, sy - dy), op.f)
  {
    hide Blit, Plan, Means, Row;
    var first, middle, last;
    ghost var r1, r2, r3;
    first, middle, last, r1, r2, r3 := PlanColumns(e, dst.wpl, src.wpl, dx, dy, dw, sx, sy, Same, Same, Same, dh);
    Columns(e, op, dst, dh, src, beyond, first, middle, last, r1, r2, r3, Rect(dx, dy, dw, dh, sx - dx, sy - dy));
  }

  // The shifts of rasteropGeneralLow, whatever the masks; in big-endian order they bring every source bit to its
  // destination bit
  method GeneralAligns(dx: nat, dw: nat, sx: nat) returns (falign: Align, walign: Align, lalign: Align)
    requires dx % 32 != sx % 32 && 0 < dw
    ensures dx % 32 != 0 ==> AlignsFirst(falign, dx, dw, sx)
    ensures AlignsRest(walign, lalign, sx + Overhang(dx), (dx + dw) % 32)
  {
    var shang, dhang := Overhang(sx), Overhang(dx);
    var sleftshift := if dhang > shang then dhang - shang else 32 - (shang - dhang);
    var srightshift := 32 - sleftshift;
    var sfwbits := 32 - sx % 32;
    falign := if dhang > sfwbits then ShiftLeft(sleftshift, dw >= shang) else ShiftRight(srightshift);
    walign := ShiftLeft(sleftshift, true);
    lalign := ShiftLeft(sleftshift, (dx + dw) % 32 > srightshift);
  }

  /** Left edges with different word alignment: the shift-and-merge path. */
  method RasteropGeneralLow(e: Endian, dst: Image, dx: int, dy: int, dw: int, dh: int, op: Operation, src: Image,
                            sx: int, sy: int, beyond: Word)
    requires MayBlit(dst, src, Rect(dx, dy, dw, dh, sx - dx, sy - dy), op.f) && 0 < dw && 0 < dh
    requires dx % 32 != sx % 32
    modifies dst.data
    ensures Blit(e, old(dst.View()), old(src.View()), dst.View(), Rect(dx, dy, dw, dh, sx - dx, sy - dy), op.f)
  {
    hide Blit, Plan, Means, Row, Aligns, AlignsFirst, AlignsRest;
    var falign, walign, lalign := GeneralAligns(dx, dw, sx);
    var first, middle, last;
    ghost var r1, r2, r3;
    first, middle, last, r1, r2, r3 := PlanColumns(e, dst.wpl, src.wpl, dx, dy, dw, sx, sy, falign, walign, lalign, dh);
    Columns(e, op, dst, dh, src, beyond, first, middle, last, r1, r2, r3, Rect(dx, dy, dw, dh, sx - dx, sy - dy));
  }

  /** Both left edges on word boundaries: row by row, full words and then the partial one. */
  method RasteropWordAlignedLow(e: Endian, dst: Image, dx: int, dy: int, dw: int, dh: int, op: Operation, src: Image,
                                sx: int, sy: int, beyond: Word)
    requires MayBlit(dst, src, Rect(dx, dy, dw, dh, sx - dx, sy - dy), op.f) && 0 < dw && 0 < dh
    requires dx % 32 == 0 && sx % 32 == 0
    modifies dst.data
    ensures Blit(e, old(dst.View()), old(src.View()), dst.View(), Rect(dx, dy, dw, dh, sx - dx, sy - dy), op.f)
  {
    ghost var r := Rect(dx, dy, dw, dh, sx - dx, sy - dy);
    ghost var c, cs := dx / 32, sx / 32;
    var nfullw, lwbits := dw / 32, dw % 32;
    var lwmask := LMask(e, lwbits);
    MaskPix(e, 0, lwbits, lwmask);
    var pdfword := WordAt(dst.wpl, dx, dy);
    var psfword := WordAt(src.wpl, sx, sy);
    AlignedRows(e, dst, dh, op, src, pdfword, psfword, nfullw, lwbits, lwmask, beyond, c, cs, r);
  }

  method AlignedRows(e: Endian, dst: Image, dh: int, op: Operation, src: Image, pdfword: int, psfword: int, nfullw: nat,
                     lwbits: nat, lwmask: Word, beyond: Word, ghost c: int, ghost cs: int, ghost r: Rect)
    requires MayBlit(dst, src, r, op.f) && r.h == dh && r.x == 32 * c && r.x + r.dx == 32 * cs
    requires r.w == 32 * nfullw + lwbits && 0 < r.w && lwbits < 32
    requires forall k | 0 <= k < 32 :: Pix(e, lwmask, k) == (k < lwbits)
    requires pdfword == Row(dst.wpl, r.y) + c && psfword == Row(src.wpl, r.y + r.dy) + cs
    modifies dst.data
    ensures Blit(e, old(dst.View()), old(src.View()), dst.View(), r, op.f)
  {
    hide Blit, Means, Row, Rect.Has;
    var lined, lines := pdfword, psfword;
    BlitNothing(e, dst.View(), src.View(), r.(h := 0), op.f);
    for i := 0 to dh
      invariant lined == Row(dst.wpl, r.y + i) + c && lines == Row(src.wpl, r.y + r.dy + i) + cs
      invariant Blit(e, old(dst.View()), old(src.View()), dst.View(), r.(h := i), op.f)
      invariant src != dst ==> src.View() == old(src.View())
    {
      ghost var d1, s1 := dst.View(), src.View();
      AlignedRow(e, dst, op, src, lined, lines, nfullw, lwbits, lwmask, beyond, c, cs, r.(y := r.y + i, h := 1));
      BlitNextRow(e, old(dst.View()), old(src.View()), d1, s1, dst.View(), r, i, op.f);
      NextRow(dst.wpl, r.y + i);
      NextRow(src.wpl, r.y + r.dy + i);
      lined := lined + dst.wpl;
      lines := lines + src.wpl;
    }
  }

  method AlignedRow(e: Endian, dst: Image, op: Operation, src: Image, lined: int, lines: int, nfullw: nat, lwbits: nat,
                    lwmask: Word, beyond: Word, ghost c: int, ghost cs: int, ghost r: Rect)
    requires MayBlit(dst, src, r, op.f) && r.h == 1 && r.x == 32 * c && r.x + r.dx == 32 * cs
    requires r.w == 32 * nfullw + lwbits && 0 < r.w && lwbits < 32
    requires forall k | 0 <= k < 32 :: Pix(e, lwmask, k) == (k < lwbits)
    requires lined == Row(dst.wpl, r.y) + c && lines == Row(src.wpl, r.y + r.dy) + cs
    modifies dst.data
    ensures Blit(e, old(dst.View()), old(src.View()), dst.View(), r, op.f)
    ensures src != dst ==> src.View() == old(src.View())
  {
    hide Blit, Means, Pix;
    ghost var r1, r2 := r.(w := 32 * nfullw), r.(x := r.x + 32 * nfullw, w := lwbits);
    BlitNothing(e, dst.View(), src.View(), r1.(w := 0), op.f);
    if nfullw > 0 {
      FullRow(e, op, dst, lined, nfullw, src, lines, Same, beyond, c, cs, 0, r1);
    }
    ghost var d1, s1 := dst.View(), src.View();
    BlitNothing(e, d1, s1, r2.(w := 0), op.f);
    if lwbits > 0 {
      BlitPart(e, op, dst, lined + nfullw, lwmask, src, lines + nfullw, Same, beyond, c + nfullw, cs + nfullw, 0, r2);
    }
    BlitJoined(e, old(dst.View()), old(src.View()), d1, s1, dst.View(), r1, r2, r, op.f);
  }

  // Position i of n0 positions from d0 on is inside the destination, and its source position inside the source
  predicate Kept(d0: int, n0: int, dsize: int, s0: int, ssize: int, i: int) {
    d0 <= i < d0 + n0 && 0 <= i < dsize && 0 <= i + s0 - d0 < ssize
  }

  /** A request in bits: rectangle (x, y, w, h) of a dw by dh destination, from (sx, sy) of an sw by sh source. */
  datatype Request = Request(dw: int, dh: int, x: int, y: int, w: int, h: int, sw: int, sh: int, sx: int, sy: int) {

    // (x', y') is in the rectangle, and both it and its source bit are in their images
    predicate Has(x': int, y': int) {
      Kept(x, w, dw, sx, sw, x') && Kept(y, h, dh, sy, sh, y')
    }
  }

  // d' is d with every requested bit replaced by f(source bit, bit), if the code moves pixels that far, and nothing
  // else changed
  ghost predicate Drawn(e: Endian, d: Pic, s: Pic, d': Pic, q: Request, f: Meaning) {
    && d.Valid() && s.Valid() && q.dw <= 32 * d.wpl && q.dh <= d.height && q.sw <= 32 * s.wpl && q.sh <= s.height
    && d'.wpl == d.wpl && d'.height == d.height && |d'.words| == |d.words|
    && d'.words[Row(d.wpl, d.height)..] == d.words[Row(d.wpl, d.height)..]
    && forall x, y | d.In(x, y) ::
         if q.Has(x, y)
         then Exact(e, q.sx - q.x) ==> d'.Bit(e, x, y) == f(s.Bit(e, x + q.sx - q.x, y + q.sy - q.y), d.Bit(e, x, y))
         else d'.Bit(e, x, y) == d.Bit(e, x, y)
  }

  // One axis of the clipping in rasteropLow: the positions kept are those inside both images
  method Clip(d0: int, n0: int, dsize: int, s0: int, ssize: int) returns (d: int, n: int, s: int)
    ensures s - d == s0 - d0 && n <= n0
    ensures n > 0 ==> 0 <= d && d + n <= dsize && 0 <= s && s + n <= ssize
    ensures forall i :: Kept(d0, n0, dsize, s0, ssize, i) <==> d <= i < d + n
  {
    d, n, s := d0, n0, s0;
    if d < 0 {
      s := s - d;
      n := n + d;
      d := 0;
    }
    if s < 0 {
      d := d - s;
      n := n + s;
      s := 0;
    }
    var dhang := d + n - dsize;
    if dhang > 0 {
      n := n - dhang;
    }
    var shang := s + n - ssize;
    if shang > 0 {
      n := n - shang;
    }
  }

  /** Clips the request and hands it to the routine for its alignment. */
  method RasteropLow(e: Endian, dst: Image, src: Image, q: Request, op: Operation, beyond: Word)
    requires dst.Valid() && src.Valid()
    requires q.dw <= 32 * dst.wpl && q.dh <= dst.height && q.sw <= 32 * src.wpl && q.sh <= src.height
    requires if src == dst then Rect(q.x, q.y, q.w, q.h, q.sx - q.x, q.sy - q.y).Apart(op.f) else src.data != dst.data
    modifies dst.data
    ensures Drawn(e, old(dst.View()), old(src.View()), dst.View(), q, op.f)
  {
    var dx, dw, sx := Clip(q.x, q.w, q.dw, q.sx, q.sw);
    var dy, dh, sy := Clip(q.y, q.h, q.dh, q.sy, q.sh);
    if dw <= 0 || dh <= 0 {
      return;
    }
    Dispatch(e, dst, dx, dy, dw, dh, op, src, sx, sy, beyond);
    BlitIsDrawn(e, old(dst.View()), old(src.View()), dst.View(), q, Rect(dx, dy, dw, dh, sx - dx, sy - dy), op.f);
  }

  // Blitting the clipped rectangle draws the request
  lemma BlitIsDrawn(e: Endian, d: Pic, s: Pic, d': Pic, q: Request, r: Rect, f: Meaning)
    requires Blit(e, d, s, d', r, f)
    requires q.dw <= 32 * d.wpl && q.dh <= d.height && q.sw <= 32 * s.wpl && q.sh <= s.height
    requires r.dx == q.sx - q.x && r.dy == q.sy - q.y
    requires forall i :: Kept(q.x, q.w, q.dw, q.sx, q.sw, i) <==> r.x <= i < r.x + r.w
    requires forall i :: Kept(q.y, q.h, q.dh, q.sy, q.sh, i) <==> r.y <= i < r.y + r.h
    ensures Drawn(e, d, s, d', q, f)
  {
    forall x, y | d.In(x, y)
      ensures if q.Has(x, y)
        then Exact(e, q.sx - q.x) ==> d'.Bit(e, x, y) == f(s.Bit(e, x + q.sx - q.x, y + q.sy - q.y), d.Bit(e, x, y))
        else d'.Bit(e, x, y) == d.Bit(e, x, y)
    {
      assert x + q.sx - q.x == x + r.dx && y + q.sy - q.y == y + r.dy;
      assert q.Has(x, y) == r.Has(x, y);
    }
  }

  // Dispatch to aligned or non-aligned blitters
  method Dispatch(e: Endian, dst: Image, dx: int, dy: int, dw: int, dh: int, op: Operation, src: Image, sx: int,
                  sy: int, beyond: Word)
    requires MayBlit(dst, src, Rect(dx, dy, dw, dh, sx - dx, sy - dy), op.f) && 0 < dw && 0 < dh
    modifies dst.data
    ensures Blit(e, old(dst.View()), old(src.View()), dst.View(), Rect(dx, dy, dw, dh, sx - dx, sy - dy), op.f)
  {
    if dx % 32 == 0 && sx % 32 == 0 {
      RasteropWordAlignedLow(e, dst, dx, dy, dw, dh, op, src, sx, sy, beyond);
    } else if dx % 32 == sx % 32 {
      RasteropVAlignedLow(e, dst, dx, dy, dw, dh, op, src, sx, sy, beyond);
    } else {
      RasteropGeneralLow(e, dst, dx, dy, dw, dh, op, src, sx, sy, beyond);
    }
  }

  /** The destination-only operations: the same skeleton, with the destination as its own, unused, source. */
  method RasteropUniLow(e: Endian, dst: Image, q: Request, op: Operation, beyond: Word)
    requires dst.Valid() && 0 <= q.dw <= 32 * dst.wpl && 0 <= q.dh <= dst.height && IgnoresSource(op.f)
    requires (q.sw, q.sh, q.sx, q.sy) == (q.dw, q.dh, q.x, q.y)
    modifies dst.data
    ensures Drawn(e, old(dst.View()), old(dst.View()), dst.View(), q, op.f)
  {
    hide Means, Row;
    var dx, dw := ClipUni(q.x, q.w, q.dw);
    var dy, dh := ClipUni(q.y, q.h, q.dh);
    if dw <= 0 || dh <= 0 {
      return;
    }
    if dx % 32 == 0 {
      RasteropWordAlignedLow(e, dst, dx, dy, dw, dh, op, dst, dx, dy, beyond);
    } else {
      RasteropVAlignedLow(e, dst, dx, dy, dw, dh, op, dst, dx, dy, beyond);
    }
  }

  // One axis of the clipping in rasteropUniLow
  method ClipUni(d0: int, n0: int, dsize: int) returns (d: int, n: int)
    ensures n > 0 ==> 0 <= d && d + n <= dsize
    ensures forall i :: Kept(d0, n0, dsize, d0, dsize, i) <==> d <= i < d + n
  {
    d, n := d0, n0;
    if d < 0 {
      n := n + d;
      d := 0;
    }
    var dhang := d + n - dsize;
    if dhang > 0 {
      n := n - dhang;
    }
  }

  /** Pixel x of row y of an image that is w pixels of bpp bits wide. */
  ghost function Pixel(e: Endian, d: Pic, bpp: nat, w: int, x: int, y: int): Bits
    requires d.Valid() && 0 <= x < w && w * bpp <= 32 * d.wpl && 0 <= y < d.height
  {
    PixelFits(bpp, x, w);
    seq(bpp, j requires 0 <= j < bpp => d.Bit(e, x * bpp + j, y))
  }

  lemma PixelFits(bpp: nat, x: int, w: int)
    requires 0 <= x < w
    ensures 0 <= x * bpp && x * bpp + bpp <= w * bpp
  {
    assert (x + 1) * bpp <= w * bpp;
  }

  // Horizontal positions in bits instead of pixels
  function Scaled(q: Request, bpp: nat): Request {
    Request(q.dw * bpp, q.dh, q.x * bpp, q.y, q.w * bpp, q.h, q.sw * bpp, q.sh, q.sx * bpp, q.sy)
  }

  lemma ScaleOrder(b: nat, a: int, x: int, j: int)
    requires 0 <= j < b
    ensures a * b <= x * b + j <==> a <= x
    ensures x * b + j < a * b <==> x < a
  {
    if a <= x {
      assert a * b <= x * b;
    } else {
      assert (x + 1) * b <= a * b;
    }
  }

  lemma ScaleKept(b: nat, d0: int, n0: int, dsize: int, s0: int, ssize: int, i: int, j: int)
    requires 0 <= j < b
    ensures Kept(d0 * b, n0 * b, dsize * b, s0 * b, ssize * b, i * b + j) == Kept(d0, n0, dsize, s0, ssize, i)
    ensures i * b + j + s0 * b - d0 * b == (i + s0 - d0) * b + j
  {
    Distribute(d0, n0, b);
    Distribute(i + s0 - d0, d0, b);
    Distribute(i, s0, b);
    ScaleOrder(b, d0, i, j);
    ScaleOrder(b, d0 + n0, i, j);
    ScaleOrder(b, dsize, i, j);
    ScaleOrder(b, 0, i, j);
    ScaleOrder(b, 0, i + s0 - d0, j);
    ScaleOrder(b, ssize, i + s0 - d0, j);
  }

  // A pixel's bits are requested exactly if the pixel is
  lemma ScaleHas(q: Request, bpp: nat, x: int, y: int, j: int)
    requires 0 <= j < bpp
    ensures Scaled(q, bpp).Has(x * bpp + j, y) == q.Has(x, y)
    ensures x * bpp + j + q.sx * bpp - q.x * bpp == (x + q.sx - q.x) * bpp + j
  {
    hide Kept;
    ScaleKept(bpp, q.x, q.w, q.dw, q.sx, q.sw, x, j);
  }

  ghost predicate FitsPic(q: Request, bpp: nat, d: Pic, s: Pic) {
    && d.Valid() && s.Valid() && q.dw * bpp <= 32 * d.wpl && q.dh <= d.height
    && q.sw * bpp <= 32 * s.wpl && q.sh <= s.height
  }

  // What pixel (x, y) of the destination becomes
  ghost function NewPixel(e: Endian, bpp: nat, d: Pic, s: Pic, q: Request, op: nat, bg: Bits, x: int, y: int): Bits
    requires FitsPic(q, bpp, d, s) && 0 <= x < q.dw && 0 <= y < q.dh && |bg| == bpp
  {
    var old' := Pixel(e, d, bpp, q.dw, x, y);
    if q.Has(x, y) then ApplyOp(op, Pixel(e, s, bpp, q.sw, x + q.sx - q.x, y + q.sy - q.y), old', bg) else old'
  }

  // The code moves pixels as far as the request asks
  predicate Moves(e: Endian, bpp: nat, q: Request) { Exact(e, q.sx * bpp - q.x * bpp) }

  // d' is d with every pixel of the destination image updated, those in the rectangle if the code moves pixels that
  // far, and nothing else changed
  ghost predicate PixelsDrawn(e: Endian, bpp: nat, d: Pic, s: Pic, d': Pic, q: Request, op: nat)
    requires FitsPic(q, bpp, d, s)
  {
    && d'.wpl == d.wpl && d'.height == d.height && |d'.words| == |d.words|
    && d'.words[Row(d.wpl, d.height)..] == d.words[Row(d.wpl, d.height)..]
    && (forall x, y | d.In(x, y) && !(x < q.dw * bpp && y < q.dh) :: d'.Bit(e, x, y) == d.Bit(e, x, y))
    && forall x, y, bg: Bits | 0 <= x < q.dw && 0 <= y < q.dh && |bg| == bpp && (q.Has(x, y) ==> Moves(e, bpp, q)) ::
         Pixel(e, d', bpp, q.dw, x, y) == NewPixel(e, bpp, d, s, q, op, bg, x, y)
  }

  lemma DrawnPixels(e: Endian, bpp: nat, d: Pic, s: Pic, d': Pic, q: Request, op: nat, f: Meaning)
    requires FitsPic(q, bpp, d, s) && Drawn(e, d, s, d', Scaled(q, bpp), f)
    requires op <= MWROP_MAX && SameRop(op) && forall a, b :: f(a, b) == TableBit(RASTER_OPS[op], a, b)
    ensures PixelsDrawn(e, bpp, d, s, d', q, op)
  {
    forall x, y | d.In(x, y) && !(x < q.dw * bpp && y < q.dh) ensures d'.Bit(e, x, y) == d.Bit(e, x, y) {
      assert !Scaled(q, bpp).Has(x, y);
    }
    forall x, y, bg: Bits | 0 <= x < q.dw && 0 <= y < q.dh && |bg| == bpp && (q.Has(x, y) ==> Moves(e, bpp, q))
      ensures Pixel(e, d', bpp, q.dw, x, y) == NewPixel(e, bpp, d, s, q, op, bg, x, y)
    {
      PixelDrawn(e, bpp, d, s, d', q, op, f, x, y, bg);
    }
  }

  lemma ScaledFields(q: Request, bpp: nat)
    ensures Scaled(q, bpp).x == q.x * bpp && Scaled(q, bpp).sx == q.sx * bpp
        && Scaled(q, bpp).y == q.y && Scaled(q, bpp).sy == q.sy
  {
  }

  lemma PixelBit(e: Endian, bpp: nat, d: Pic, s: Pic, d': Pic, q: Request, f: Meaning, x: int, y: int, j: int)
    requires FitsPic(q, bpp, d, s) && Drawn(e, d, s, d', Scaled(q, bpp), f)
    requires 0 <= x < q.dw && 0 <= y < q.dh && 0 <= j < bpp && (q.Has(x, y) ==> Moves(e, bpp, q))
    ensures Pixel(e, d', bpp, q.dw, x, y)[j] ==
      if q.Has(x, y)
      then f(Pixel(e, s, bpp, q.sw, x + q.sx - q.x, y + q.sy - q.y)[j], Pixel(e, d, bpp, q.dw, x, y)[j])
      else Pixel(e, d, bpp, q.dw, x, y)[j]
  {
    hide Pic.Bit, Exact, Row, Scaled;
    PixelFits(bpp, x, q.dw);
    ScaledFields(q, bpp);
    ScaleHas(q, bpp, x, y, j);
    if q.Has(x, y) {
      PixelFits(bpp, x + q.sx - q.x, q.sw);
    }
  }

  lemma OpOnBits(op: nat, s: Bits, d: Bits, bg: Bits, d': Bits, f: Meaning)
    requires op <= MWROP_MAX && SameRop(op) && forall a, b :: f(a, b) == TableBit(RASTER_OPS[op], a, b)
    requires |s| == |d| == |bg| == |d'| && forall j | 0 <= j < |d| :: d'[j] == f(s[j], d[j])
    ensures d' == ApplyOp(op, s, d, bg)
  {
    forall j | 0 <= j < |d| ensures d'[j] == ApplyOp(op, s, d, bg)[j] {
      SameRopAgrees(op, s[j], d[j], bg[j]);
      ApplyOpPixel(op, s, d, bg, j);
    }
  }

  lemma PixelDrawn(e: Endian, bpp: nat, d: Pic, s: Pic, d': Pic, q: Request, op: nat, f: Meaning, x: int, y: int,
                   bg: Bits)
    requires FitsPic(q, bpp, d, s) && Drawn(e, d, s, d', Scaled(q, bpp), f)
    requires op <= MWROP_MAX && SameRop(op) && forall a, b :: f(a, b) == TableBit(RASTER_OPS[op], a, b)
    requires 0 <= x < q.dw && 0 <= y < q.dh && |bg| == bpp && (q.Has(x, y) ==> Moves(e, bpp, q))
    ensures Pixel(e, d', bpp, q.dw, x, y) == NewPixel(e, bpp, d, s, q, op, bg, x, y)
  {
    var old', new' := Pixel(e, d, bpp, q.dw, x, y), Pixel(e, d', bpp, q.dw, x, y);
    forall j | 0 <= j < bpp
      ensures new'[j] ==
        if q.Has(x, y) then f(Pixel(e, s, bpp, q.sw, x + q.sx - q.x, y + q.sy - q.y)[j], old'[j]) else old'[j]
    {
      PixelBit(e, bpp, d, s, d', q, f, x, y, j);
    }
    if q.Has(x, y) {
      OpOnBits(op, Pixel(e, s, bpp, q.sw, x + q.sx - q.x, y + q.sy - q.y), old', bg, new', f);
    }
  }

  // The flags that rasteropUniLow or nobody handles: the source image plays no part
  predicate DestOnly(op: nat)
    requires op <= MWROP_MAX
  {
    RASTER_OPS[op] in {PIX_CLR, PIX_SET, PIX_NOT_DST, PIX_DST}
  }

  function OperationOf(op: nat): Operation
    requires op <= MWROP_MAX
  {
    var flag := Flag(RASTER_OPS[op], (s, d) => TableBit(RASTER_OPS[op], s, d));
    FlagMeans(flag, op);
    flag
  }

  lemma IgnoresSourceIf(f: Meaning, op: nat)
    requires op <= MWROP_MAX && DestOnly(op)
    requires forall a, b :: f(a, b) == TableBit(RASTER_OPS[op], a, b)
    ensures IgnoresSource(f)
  {
    forall a, b, d ensures f(a, d) == f(b, d) {
      TableIgnoresSource(RASTER_OPS[op], a, b, d);
    }
  }

  lemma FlagMeans(flag: Flag, op: nat)
    requires op <= MWROP_MAX && flag.code == RASTER_OPS[op]
    requires forall a, b :: flag.f(a, b) == TableBit(flag.code, a, b)
    ensures Means(flag)
  {
    forall s: Word, d: Word, k | 0 <= k < 32
      ensures PixOp(flag.code, s, d)[k] == flag.f(s[k], d[k])
    {
      PixOpIsTable(flag.code, s, d);
    }
  }

  // The request that a call makes; the source of a destination-only operation is the destination itself
  function RequestOf(dst: Image, dx: int, dy: int, dw: int, dh: int, op: nat, src: Image, sx: int, sy: int): Request
    requires op <= MWROP_MAX
  {
    if DestOnly(op) then Request(dst.width, dst.height, dx, dy, dw, dh, dst.width, dst.height, dx, dy)
    else Request(dst.width, dst.height, dx, dy, dw, dh, src.width, src.height, sx, sy)
  }

  /** GdRasterOp: dst pixel := op(src pixel, dst pixel) in the clipped rectangle. */
  method GdRasterOp(e: Endian, pixd: Image, dx: int, dy: int, dw: int, dh: int, op: nat, pixs: Image, sx: int, sy: int,
                    beyond: Word)
    requires op <= MWROP_MAX
    requires pixd.Valid() && pixd.width * pixd.bpp <= 32 * pixd.wpl
    // both images have the same depth
    requires DestOnly(op) || (pixs.Valid() && pixs.width * pixs.bpp <= 32 * pixs.wpl && pixd.bpp == pixs.bpp)
    // different images share no memory, and the rectangles do not overlap within one image
    requires DestOnly(op) || (if pixs == pixd then Abs(sx - dx) >= dw || Abs(sy - dy) >= dh else pixs.data != pixd.data)
    modifies pixd.data
    ensures var src := if DestOnly(op) then pixd else pixs;
      var q := RequestOf(pixd, dx, dy, dw, dh, op, pixs, sx, sy);
      // five operations are not supported: two of them are drawn as XOR, two as a copy and one not at all
      var drawn := if op in {MWROP_XOR_FGBG, MWROP_PORTERDUFF_XOR} then MWROP_XOR
                   else if op in {MWROP_DST_OUT, MWROP_SRCTRANSCOPY} then MWROP_COPY
                   else if op == MWROP_SRC_OUT then MWROP_NOOP else op;
      FitsPic(q, pixd.bpp, old(pixd.View()), old(src.View())) &&
      PixelsDrawn(e, pixd.bpp, old(pixd.View()), old(src.View()), pixd.View(), q, drawn)
  {
    var o := OperationOf(op);
    ghost var drawn := if op in {MWROP_XOR_FGBG, MWROP_PORTERDUFF_XOR} then MWROP_XOR
                       else if op in {MWROP_DST_OUT, MWROP_SRCTRANSCOPY} then MWROP_COPY
                       else if op == MWROP_SRC_OUT then MWROP_NOOP else op;
    Substituted(op);
    if o.code == PIX_DST {
      UnchangedIsDrawn(e, pixd.bpp, pixd.View(), RequestOf(pixd, dx, dy, dw, dh, op, pixs, sx, sy), drawn);
    } else if o.code == PIX_CLR || o.code == PIX_SET || o.code == PIX_NOT_DST {
      GdUni(e, pixd, Request(pixd.width, pixd.height, dx, dy, dw, dh, pixd.width, pixd.height, dx, dy), drawn, o,
          beyond);
    } else {
      GdBinary(e, pixd, pixs, Request(pixd.width, pixd.height, dx, dy, dw, dh, pixs.width, pixs.height, sx, sy),
          drawn, o, beyond);
    }
  }

  lemma UnchangedIsDrawn(e: Endian, bpp: nat, d: Pic, q: Request, op: nat)
    requires op <= MWROP_MAX && SameRop(op) && RASTER_OPS[op] == PIX_DST
    requires FitsPic(q, bpp, d, d) && (q.sw, q.sh, q.sx, q.sy) == (q.dw, q.dh, q.x, q.y)
    ensures PixelsDrawn(e, bpp, d, d, d, q, op)
  {
    var f := (s: bool, b: bool) => b;
    forall a, b ensures f(a, b) == TableBit(RASTER_OPS[op], a, b) {
    }
    DrawnPixels(e, bpp, d, d, d, q, op, f);
  }

  method GdUni(e: Endian, pixd: Image, q: Request, ghost op: nat, o: Operation, beyond: Word)
    requires op <= MWROP_MAX && SameRop(op) && DestOnly(op) && forall a, b ::
      o.f(a, b) == TableBit(RASTER_OPS[op], a, b)
    requires pixd.Valid() && pixd.width * pixd.bpp <= 32 * pixd.wpl
    requires (q.dw, q.dh) == (q.sw, q.sh) == (pixd.width, pixd.height) && (q.sx, q.sy) == (q.x, q.y)
    modifies pixd.data
    ensures FitsPic(q, pixd.bpp, old(pixd.View()), old(pixd.View()))
    ensures PixelsDrawn(e, pixd.bpp, old(pixd.View()), old(pixd.View()), pixd.View(), q, op)
  {
    IgnoresSourceIf(o.f, op);
    RasteropUniLow(e, pixd, Scaled(q, pixd.bpp), o, beyond);
    DrawnPixels(e, pixd.bpp, old(pixd.View()), old(pixd.View()), pixd.View(), q, op, o.f);
  }

  method GdBinary(e: Endian, pixd: Image, pixs: Image, q: Request, ghost op: nat, o: Operation, beyond: Word)
    requires op <= MWROP_MAX && SameRop(op) && forall a, b :: o.f(a, b) == TableBit(RASTER_OPS[op], a, b)
    requires pixd.Valid() && pixs.Valid() && pixd.width * pixd.bpp <= 32 * pixd.wpl
        && pixs.width * pixs.bpp <= 32 * pixs.wpl
    requires (q.dw, q.dh, q.sw, q.sh) == (pixd.width, pixd.height, pixs.width, pixs.height) && pixd.bpp == pixs.bpp
    requires if pixs == pixd then Abs(q.sx - q.x) >= q.w || Abs(q.sy - q.y) >= q.h else pixs.data != pixd.data
    modifies pixd.data
    ensures FitsPic(q, pixd.bpp, old(pixd.View()), old(pixs.View()))
    ensures PixelsDrawn(e, pixd.bpp, old(pixd.View()), old(pixs.View()), pixd.View(), q, op)
  {
    if Abs(q.sx - q.x) >= q.w { ScaleApart(pixd.bpp, q.sx - q.x, q.w); }
    assert (q.sx - q.x) * pixd.bpp == q.sx * pixd.bpp - q.x * pixd.bpp;
    RasteropLow(e, pixd, pixs, Scaled(q, pixd.bpp), o, beyond);
    DrawnPixels(e, pixd.bpp, old(pixd.View()), old(pixs.View()), pixd.View(), q, op, o.f);
  }

  lemma ScaleApart(b: nat, d: int, w: int)
    requires Abs(d) >= w
    ensures d * b >= w * b || -(d * b) >= w * b
  {
    if d >= w {
      assert d * b >= w * b;
    } else {
      assert -d * b >= w * b;
    }
  }
}
