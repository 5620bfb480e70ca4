/** Blits between packed 4bpp surfaces, or within one (fblin4.c; vgaplan4_mem_pc98.c has the same loop without the byte
    held). */
module PackedBlits {
  import opened Bits
  import opened Rows
  import opened Rops
  import opened Linear4

  // A pixel above a row inside the memory is inside it
  lemma PlaceInside(pitch: nat, x: nat, y: nat, y2: nat, size: nat)
    requires x < 2 * pitch && y < y2 && Row(pitch, y2) <= size
    ensures Place(pitch, x, y) < 2 * size
    ensures Place(pitch, x, y) / 2 == Row(pitch, y) + x / 2 && Place(pitch, x, y) % 2 == x % 2
  {
    RowMonotone(pitch, y, y2);
    PlaceByte(pitch, x, y);
  }

  /** The rectangles of a blit. */
  datatype Copy = Copy(op: nat, bg: Byte, dstx: nat, dsty: nat, w: nat, h: nat, srcx: nat, srcy: nat, dpitch: nat,
                       spitch: nat) {

    // The nibbles of column i of row j
    ghost function From(i: nat, j: nat): nat { Place(spitch, srcx + i, srcy + j) }
    ghost function To(i: nat, j: nat): nat { Place(dpitch, dstx + i, dsty + j) }

    // What the nibble of pixel (dstx+i, dsty+j) is to become
    ghost function Pixel(from: seq<Byte>, before: seq<Byte>, i: nat, j: nat): Nibble
      requires From(i, j) < 2 * |from| && To(i, j) < 2 * |before|
    {
      ApplyOpR(op, Nibbles(from)[From(i, j)], Nibbles(before)[To(i, j)], Low(bg))
    }

    // The rectangles are inside the memory
    ghost predicate Inside(from: nat, to: nat) {
      dstx + w <= 2 * dpitch && srcx + w <= 2 * spitch && Row(dpitch, dsty + h) <= to && Row(spitch, srcy + h) <= from
    }

    lemma InsideAt(from: nat, to: nat, i: nat, j: nat)
      requires Inside(from, to) && i < w && j < h
      ensures From(i, j) < 2 * from && To(i, j) < 2 * to
      ensures From(i, j) / 2 == Row(spitch, srcy + j) + (srcx + i) / 2 && From(i, j) % 2 == (srcx + i) % 2
      ensures To(i, j) / 2 == Row(dpitch, dsty + j) + (dstx + i) / 2 && To(i, j) % 2 == (dstx + i) % 2
    {
      hide Place, Row;
      PlaceInside(spitch, srcx + i, srcy + j, srcy + h, from);
      PlaceInside(dpitch, dstx + i, dsty + j, dsty + h, to);
    }

    // The blit has come to column i of row j
    predicate Comes(i: nat, j: nat) { i <= w && j <= h && (j == h ==> i == 0) }

    // It has drawn on pixel (x, y) before it has come there
    predicate Passed(i: int, j: int, x: int, y: int) {
      dstx <= x < dstx + w && dsty <= y && (y < dsty + j || (y == dsty + j && x < dstx + i))
    }

    // The column at which the source pixel of column i is fetched; `held` if the right pixel of a byte is taken from
    // the byte fetched for the left one
    function Fetched(held: bool, i: nat): nat {
      if held && i > 0 && (srcx + i) % 2 == 1 then i - 1 else i
    }
  }

  /** A blit and the memory it starts from; `one` if both surfaces are one. */
  datatype Blitting = Blitting(k: Copy, held: bool, one: bool, from: seq<Byte>, before: seq<Byte>) {

    ghost predicate Valid() { k.Inside(|from|, |before|) && (one ==> from == before) }

    // The nibbles of the destination when the blit has come to column i of row j
    ghost function Run(i: nat, j: nat): (now: seq<Nibble>)
      requires Valid() && k.Comes(i, j)
      ensures |now| == 2 * |before|
      decreases j, i
    {
      if i > 0 then
        k.InsideAt(|from|, |before|, i - 1, j);
        var seen := if one then Run(k.Fetched(held, i - 1), j) else Nibbles(from);
        var now := Run(i - 1, j);
        now[k.To(i - 1, j) := ApplyOpR(k.op, seen[k.From(i - 1, j)], now[k.To(i - 1, j)], Low(k.bg))]
      else if j > 0 then Run(k.w, j - 1)
      else Nibbles(before)
    }

    // The nibbles of the source at that time
    ghost function Source(i: nat, j: nat): (now: seq<Nibble>)
      requires Valid() && k.Comes(i, j)
      ensures |now| == 2 * |from|
    {
      if one then Run(i, j) else Nibbles(from)
    }

    lemma RunNext(i: nat, j: nat)
      requires Valid() && i < k.w && j < k.h
      ensures k.From(i, j) < 2 * |from| && k.To(i, j) < 2 * |before|
      ensures Run(i + 1, j) == Run(i, j)[k.To(i, j) :=
        ApplyOpR(k.op, Source(k.Fetched(held, i), j)[k.From(i, j)], Run(i, j)[k.To(i, j)], Low(k.bg))]
    {
      hide Copy.Inside, Copy.From, Copy.To, ApplyOpR, Nibbles;
      k.InsideAt(|from|, |before|, i, j);
    }

    lemma RunRow(j: nat)
      requires Valid() && j < k.h
      ensures Run(k.w, j) == Run(0, j + 1)
    {
    }

    // Every pixel drawn on so far has been combined with what its source pixel was in the beginning; no other nibble
    // has changed
    ghost predicate Right(now: seq<Nibble>, i: nat, j: nat)
      requires Valid() && k.Comes(i, j) && |now| == 2 * |before|
    {
      forall x: nat, y: nat | x < 2 * k.dpitch && Place(k.dpitch, x, y) < 2 * |before| :: RightAt(now, i, j, x, y)
    }

    ghost predicate RightAt(now: seq<Nibble>, i: nat, j: nat, x: nat, y: nat)
      requires Valid() && k.Comes(i, j) && |now| == 2 * |before|
      requires x < 2 * k.dpitch && Place(k.dpitch, x, y) < 2 * |before|
    {
      now[Place(k.dpitch, x, y)] ==
        if k.Passed(i, j, x, y) then
          k.InsideAt(|from|, |before|, x - k.dstx, y - k.dsty);
          k.Pixel(from, before, x - k.dstx, y - k.dsty)
        else Nibbles(before)[Place(k.dpitch, x, y)]
    }

    // The whole blit is right
    ghost predicate Copied(after: seq<Byte>)
      requires Valid()
    {
      |after| == |before| && Right(Nibbles(after), 0, k.h)
    }

    // Taking one more column from the source as it was
    lemma RightNext(now: seq<Nibble>, i: nat, j: nat)
      requires Valid() && i < k.w && j < k.h && |now| == 2 * |before| && Right(now, i, j)
      ensures k.From(i, j) < 2 * |from| && k.To(i, j) < 2 * |before|
      ensures var v := ApplyOpR(k.op, Nibbles(from)[k.From(i, j)], now[k.To(i, j)], Low(k.bg));
        Right(now[k.To(i, j) := v], i + 1, j)
    {
      hide Row, Nibbles, Place, Low, ApplyOpR, Copy.Inside;
      k.InsideAt(|from|, |before|, i, j);
      InsideRow(k, |from|, |before|, i);
      var i', q := i + 1, k.To(i, j);
      var after := now[q := ApplyOpR(k.op, Nibbles(from)[k.From(i, j)], now[q], Low(k.bg))];
      assert RightAt(now, i, j, k.dstx + i, k.dsty + j);
      forall x: nat, y: nat {:trigger RightAt(after, i', j, x, y)}
        | x < 2 * k.dpitch && Place(k.dpitch, x, y) < 2 * |before|
        ensures RightAt(after, i', j, x, y)
      {
        assert RightAt(now, i, j, x, y);
        if Place(k.dpitch, x, y) == q {
          PlaceInjective(k.dpitch, x, y, k.dstx + i, k.dsty + j);
        }
      }
    }

    lemma RightRow(now: seq<Nibble>, j: nat)
      requires Valid() && j < k.h && |now| == 2 * |before| && Right(now, k.w, j)
      ensures Right(now, 0, j + 1)
    {
      hide Row, Nibbles, Place, Copy.Inside;
      var j' := j + 1;
      forall x: nat, y: nat {:trigger RightAt(now, 0, j', x, y)}
        | x < 2 * k.dpitch && Place(k.dpitch, x, y) < 2 * |before|
        ensures RightAt(now, 0, j', x, y)
      {
        assert RightAt(now, k.w, j, x, y);
      }
    }

    // The blit goes right as long as no source pixel is drawn on before it is fetched
    lemma {:induction false} RunRight(i: nat, j: nat)
      requires Valid() && k.Comes(i, j) && (one ==> Ahead(k, held))
      ensures Right(Run(i, j), i, j)
      decreases j, i
    {
      hide Row, Nibbles, Place, Low, ApplyOpR, Copy.Inside, Right, Run, Ahead;
      if i > 0 {
        RunRight(i - 1, j);
        RunNext(i - 1, j);
        RightNext(Run(i - 1, j), i - 1, j);
        if one {
          RunRight(k.Fetched(held, i - 1), j);
          Unspoiled(i - 1, j);
        }
      } else if j > 0 {
        RunRight(k.w, j - 1);
        RightRow(Run(k.w, j - 1), j - 1);
        RunRow(j - 1);
      } else {
        RightStart();
      }
    }

    lemma RightStart()
      requires Valid()
      ensures Right(Run(0, 0), 0, 0)
    {
    }

    // What is fetched is what was there in the beginning
    lemma Unspoiled(i: nat, j: nat)
      requires Valid() && one && Ahead(k, held) && i < k.w && j < k.h
      requires Right(Run(k.Fetched(held, i), j), k.Fetched(held, i), j)
      ensures k.From(i, j) < 2 * |before|
      ensures Run(k.Fetched(held, i), j)[k.From(i, j)] == Nibbles(before)[k.From(i, j)]
    {
      hide Row, Nibbles, Place, Low, ApplyOpR, Copy.Inside, Run;
      k.InsideAt(|from|, |before|, i, j);
      InsideRow(k, |from|, |before|, i);
      AheadExactly(k, held);
      assert !Spoiled(k, held, i, j);
      assert RightAt(Run(k.Fetched(held, i), j), k.Fetched(held, i), j, k.srcx + i, k.srcy + j);
    }

    // A pixel drawn on keeps its value
    lemma {:induction false} Stays(i: nat, j: nat, a: nat, b: nat, x: nat, y: nat)
      requires Valid() && k.Comes(i, j) && k.Comes(a, b) && (j < b || (j == b && i <= a))
      requires k.Passed(i, j, x, y) && Place(k.dpitch, x, y) < 2 * |before|
      ensures Run(a, b)[Place(k.dpitch, x, y)] == Run(i, j)[Place(k.dpitch, x, y)]
      decreases b, a
    {
      hide Row, Nibbles, Place, Low, ApplyOpR, Copy.Inside, Run;
      if (a, b) != (i, j) {
        if a > 0 {
          Stays(i, j, a - 1, b, x, y);
          RunNext(a - 1, b);
          InsideRow(k, |from|, |before|, a - 1);
          if Place(k.dpitch, x, y) == k.To(a - 1, b) {
            PlaceInjective(k.dpitch, x, y, k.dstx + a - 1, k.dsty + b);
          }
        } else {
          Stays(i, j, k.w, b - 1, x, y);
          RunRow(b - 1);
        }
      }
    }
  }

  lemma InsideRow(k: Copy, from: nat, to: nat, i: nat)
    requires k.Inside(from, to) && i < k.w
    ensures k.dstx + i < 2 * k.dpitch && k.srcx + i < 2 * k.spitch && k.dstx + k.w <= 2 * k.dpitch
  {
  }

  // Within one surface, the destination comes first, or the rectangles do not overlap; with the byte held, two columns
  // that make up a byte may also move right by one
  predicate Ahead(k: Copy, held: bool) {
    && k.spitch == k.dpitch
    && (k.w == 0 || k.h == 0 || k.dsty < k.srcy || (k.dsty == k.srcy && k.dstx <= k.srcx)
        || k.dsty >= k.srcy + k.h || k.dstx >= k.srcx + k.w || k.srcx >= k.dstx + k.w
        || (held && k.dsty == k.srcy && k.dstx == k.srcx + 1 && k.srcx % 2 == 0 && k.w == 2))
  }

  // The source pixel of column i of row j has been drawn on before it is fetched
  predicate Spoiled(k: Copy, held: bool, i: nat, j: nat) {
    k.Passed(k.Fetched(held, i), j, k.srcx + i, k.srcy + j)
  }

  // So, and only so, no source pixel is spoiled
  lemma AheadExactly(k: Copy, held: bool)
    requires k.spitch == k.dpitch
    ensures Ahead(k, held) <==> forall i: nat, j: nat | i < k.w && j < k.h :: !Spoiled(k, held, i, j)
  {
    if !Ahead(k, held) {
      var i, j := SpoiledWhere(k, held);
      assert Spoiled(k, held, i, j);
    }
  }

  // The first column whose source is in the destination, or the second one if the byte held saves the first
  lemma SpoiledWhere(k: Copy, held: bool) returns (i: nat, j: nat)
    requires k.spitch == k.dpitch && !Ahead(k, held)
    ensures i < k.w && j < k.h && Spoiled(k, held, i, j)
  {
    i, j := if k.dstx > k.srcx then k.dstx - k.srcx else 0, k.dsty - k.srcy;
    if !Spoiled(k, held, i, j) {
      i := i + 1;
    }
  }

  // Memory with one nibble set
  function Lit(size: nat, p: nat): (bytes: seq<Byte>)
    ensures |bytes| == size
  {
    seq(size, q => seq(8, n => 2 * q + n / 4 == p))
  }

  lemma LitAt(size: nat, p: nat, q: nat)
    requires q < 2 * size
    ensures Nibbles(Lit(size, p))[q] == Fill(4, q == p)
  {
    var b := Lit(size, p)[q / 2];
    assert forall n | 0 <= n < 8 :: b[n] == (2 * (q / 2) + n / 4 == p);
  }

  // In a right copy every pixel is what its source pixel was in the beginning
  lemma RightPixel(t: Blitting, i: nat, j: nat)
    requires t.Valid() && t.k.op == MWROP_COPY && i < t.k.w && j < t.k.h && t.Right(t.Run(0, t.k.h), 0, t.k.h)
    ensures t.k.From(i, j) < 2 * |t.from| && t.k.To(i, j) < 2 * |t.before|
    ensures t.Run(0, t.k.h)[t.k.To(i, j)] == Nibbles(t.from)[t.k.From(i, j)]
  {
    hide Row, Nibbles, Place, Copy.Inside, Blitting.Run;
    t.k.InsideAt(|t.from|, |t.before|, i, j);
    InsideRow(t.k, |t.from|, |t.before|, i);
    assert t.RightAt(t.Run(0, t.k.h), 0, t.k.h, t.k.dstx + i, t.k.dsty + j);
  }

  // In any copy it is what was fetched for it
  lemma FetchedPixel(t: Blitting, i: nat, j: nat)
    requires t.Valid() && t.k.op == MWROP_COPY && i < t.k.w && j < t.k.h
    ensures t.k.From(i, j) < 2 * |t.from| && t.k.To(i, j) < 2 * |t.before|
    ensures t.Run(0, t.k.h)[t.k.To(i, j)] == t.Source(t.k.Fetched(t.held, i), j)[t.k.From(i, j)]
  {
    hide Row, Nibbles, Place, Copy.Inside, Blitting.Run;
    t.RunNext(i, j);
    t.Stays(i + 1, j, 0, t.k.h, t.k.dstx + i, t.k.dsty + j);
  }

  // A spoiled pixel that is set alone is not copied: what is fetched for it has been drawn already, and is clear
  lemma SpoiledWrong(k: Copy, held: bool, size: nat, i: nat, j: nat)
    requires k.op == MWROP_COPY && k.spitch == k.dpitch && k.Inside(size, size)
    requires i < k.w && j < k.h && Spoiled(k, held, i, j)
    ensures var b := Lit(size, k.From(i, j)); var t := Blitting(k, held, true, b, b); !t.Right(t.Run(0, k.h), 0, k.h)
  {
    hide Row, Nibbles, Place, Lit, Copy.Inside, Blitting.Run, Blitting.Right;
    var b := Lit(size, k.From(i, j));
    var t, f, x, y := Blitting(k, held, true, b, b), k.Fetched(held, i), k.srcx + i, k.srcy + j;
    if t.Right(t.Run(0, k.h), 0, k.h) {
      RightPixel(t, i, j);
      FetchedPixel(t, i, j);
      RightPixel(t, x - k.dstx, y - k.dsty);
      t.Stays(f, j, 0, k.h, x, y);
      LitAlone(k, size, i, j, x - k.dstx, y - k.dsty);
    }
  }

  lemma LitAlone(k: Copy, size: nat, i: nat, j: nat, i': nat, j': nat)
    requires k.Inside(size, size) && i < k.w && j < k.h && i' < k.w && j' < k.h && (i, j) != (i', j')
    ensures k.From(i, j) < 2 * size && k.From(i', j') < 2 * size
    ensures Nibbles(Lit(size, k.From(i, j)))[k.From(i, j)] != Nibbles(Lit(size, k.From(i, j)))[k.From(i', j')]
  {
    hide Row, Nibbles, Place, Lit, Copy.Inside;
    k.InsideAt(size, size, i, j);
    k.InsideAt(size, size, i', j');
    InsideRow(k, size, size, i);
    InsideRow(k, size, size, i');
    LitAt(size, k.From(i, j), k.From(i, j));
    LitAt(size, k.From(i, j), k.From(i', j'));
    if k.From(i', j') == k.From(i, j) {
      PlaceInjective(k.spitch, k.srcx + i', k.srcy + j', k.srcx + i, k.srcy + j);
    }
    assert Fill(4, true)[0] != Fill(4, false)[0];
  }

  // Copying within one surface is right for all contents just if no source pixel is spoiled
  lemma RightExactly(k: Copy, held: bool, size: nat)
    requires k.op == MWROP_COPY && k.spitch == k.dpitch && k.Inside(size, size)
    ensures Ahead(k, held) <==>
      forall b: seq<Byte> | |b| == size ::
        var t := Blitting(k, held, true, b, b); t.Right(t.Run(0, k.h), 0, k.h)
  {
    if Ahead(k, held) {
      forall b: seq<Byte> | |b| == size
        ensures var t := Blitting(k, held, true, b, b); t.Right(t.Run(0, k.h), 0, k.h)
      {
        Blitting(k, held, true, b, b).RunRight(0, k.h);
      }
    } else {
      var i, j := SpoiledWhere(k, held);
      SpoiledWrong(k, held, size, i, j);
      assert |Lit(size, k.From(i, j))| == size;
    }
  }

  // The nibble that the inner loop of the blit stores
  function Combined(op: nat, bg: Byte, d: Byte, dx: nat, c: Byte, sx: nat): Byte {
    if op == MWROP_COPY then Store(d, dx, Masked(Load(c, sx)))
    else Store(d, dx, Masked(ApplyOpR(op, Load(c, sx), Load(d, dx), bg)))
  }

  lemma CombinedAt(op: nat, bg: Byte, s: Nibble, c: Byte, sx: nat, bytes: seq<Byte>, q: nat, dx: nat)
    requires Half(c, sx % 2) == s && q / 2 < |bytes| && q % 2 == dx % 2
    ensures Nibbles(bytes[q / 2 := Combined(op, bg, bytes[q / 2], dx, c, sx)])
      == Nibbles(bytes)[q := ApplyOpR(op, s, Nibbles(bytes)[q], Low(bg))]
  {
    var l, d := Load(c, sx), Load(bytes[q / 2], dx);
    LoadNibble(c, sx);
    LoadNibble(bytes[q / 2], dx);
    OpOnNibble(op, l, d, bg);
    MaskedNibble(l);
    MaskedNibble(ApplyOpR(op, l, d, bg));
    StoreAt(bytes, q, dx, Masked(l));
    StoreAt(bytes, q, dx, Masked(ApplyOpR(op, l, d, bg)));
  }

  // One pixel stored takes the blit one column on
  lemma PixelStored(t: Blitting, now: seq<Byte>, c: Byte, i: nat, j: nat, d: nat)
    requires t.Valid() && i < t.k.w && j < t.k.h && |now| == |t.before| && Nibbles(now) == t.Run(i, j)
    requires d == Row(t.k.dpitch, t.k.dsty + j) + (t.k.dstx + i) / 2
    requires t.k.From(i, j) < 2 * |t.from|
        && Half(c, (t.k.srcx + i) % 2) == t.Source(t.k.Fetched(t.held, i), j)[t.k.From(i, j)]
    ensures d < |now|
    ensures Nibbles(now[d := Combined(t.k.op, t.k.bg, now[d], t.k.dstx + i, c, t.k.srcx + i)]) == t.Run(i + 1, j)
  {
    hide Row, Combined, Nibbles, Place, Copy.Inside, Half, Low, ApplyOpR, Blitting.Run;
    var k := t.k;
    k.InsideAt(|t.from|, |t.before|, i, j);
    t.RunNext(i, j);
    CombinedAt(k.op, k.bg, Half(c, (k.srcx + i) % 2), c, k.srcx + i, now, k.To(i, j), k.dstx + i);
  }

  // src is the source memory when the blit has come to column i of row j
  ghost predicate Seen(t: Blitting, src: seq<Byte>, i: nat, j: nat)
    requires t.Valid() && t.k.Comes(i, j)
  {
    |src| == |t.from| && Nibbles(src) == t.Source(i, j)
  }

  // What is known about the byte held at column i of row j: its nibbles from there on
  ghost predicate Holding(t: Blitting, c: Byte, i: nat, j: nat)
    requires t.Valid() && i <= t.k.w && j < t.k.h
  {
    && (i < t.k.w ==> Holds(t, c, t.k.Fetched(true, i), i, j))
    && ((t.k.srcx + i) % 2 == 0 && i + 1 < t.k.w ==> Holds(t, c, i, i + 1, j))
  }

  // The byte fetched at column f has the source pixel of column i
  ghost predicate Holds(t: Blitting, c: Byte, f: nat, i: nat, j: nat)
    requires t.Valid() && f <= i < t.k.w && j < t.k.h
  {
    && t.k.From(i, j) < 2 * |t.from|
    && Half(c, (t.k.srcx + i) % 2) == t.Source(f, j)[t.k.From(i, j)]
  }

  lemma SeenHolds(t: Blitting, src: seq<Byte>, f: nat, i: nat, j: nat)
    requires t.Valid() && f <= i < t.k.w && j < t.k.h && Seen(t, src, f, j)
    ensures Row(t.k.spitch, t.k.srcy + j) + (t.k.srcx + i) / 2 < |src|
    ensures Holds(t, src[Row(t.k.spitch, t.k.srcy + j) + (t.k.srcx + i) / 2], f, i, j)
  {
    hide Row, Place, Half, Blitting.Run, Copy.Inside;
    t.k.InsideAt(|t.from|, |t.before|, i, j);
  }

  // Fetching a byte, or at the end of a row whatever comes behind it
  lemma ByteFetched(t: Blitting, src: seq<Byte>, i: nat, j: nat, c: Byte)
    requires t.Valid() && i <= t.k.w && j < t.k.h && Seen(t, src, i, j) && (i == 0 || (t.k.srcx + i) % 2 == 0)
    requires var s := Row(t.k.spitch, t.k.srcy + j) + (t.k.srcx + i) / 2; s < |src| ==> c == src[s]
    ensures Holding(t, c, i, j)
  {
    hide Row, Holds, Seen, Blitting.Run, Copy.Inside;
    if i < t.k.w {
      SeenHolds(t, src, i, i, j);
      if (t.k.srcx + i) % 2 == 0 && i + 1 < t.k.w {
        SeenHolds(t, src, i, i + 1, j);
      }
    }
  }

  // The right pixel of a byte is in the byte already fetched
  lemma StillHolding(t: Blitting, c: Byte, i: nat, j: nat)
    requires t.Valid() && i < t.k.w && j < t.k.h && Holding(t, c, i, j)
    ensures (t.k.srcx + i + 1) % 2 != 0 ==> Holding(t, c, i + 1, j)
  {
    hide Holds;
  }

  // The destination, and the source with it if they are one
  ghost predicate Come(t: Blitting, dst: seq<Byte>, src: seq<Byte>, i: nat, j: nat) {
    && t.Valid() && t.k.Comes(i, j) && |dst| == |t.before| && Nibbles(dst) == t.Run(i, j)
    && if t.one then src == dst else src == t.from
  }

  lemma ComeSees(t: Blitting, dst: seq<Byte>, src: seq<Byte>, i: nat, j: nat)
    requires Come(t, dst, src, i, j)
    ensures t.Valid() && t.k.Comes(i, j) && Seen(t, src, i, j)
  {
  }

  lemma ComeStart(t: Blitting)
    requires t.Valid()
    ensures Come(t, t.before, t.from, 0, 0)
  {
  }

  lemma ComeRow(t: Blitting, dst: seq<Byte>, src: seq<Byte>, j: nat)
    requires j < t.k.h && Come(t, dst, src, t.k.w, j)
    ensures Come(t, dst, src, 0, j + 1)
  {
    t.RunRow(j);
  }

  lemma ComeNext(t: Blitting, dst: seq<Byte>, src: seq<Byte>, c: Byte, i: nat, j: nat, d: nat, dst': seq<Byte>,
                 src': seq<Byte>)
    requires Come(t, dst, src, i, j) && i < t.k.w && j < t.k.h
    requires Holds(t, c, t.k.Fetched(t.held, i), i, j)
    requires d == Row(t.k.dpitch, t.k.dsty + j) + (t.k.dstx + i) / 2
    requires d < |dst| ==> dst' == dst[d := Combined(t.k.op, t.k.bg, dst[d], t.k.dstx + i, c, t.k.srcx + i)]
    requires src' == if t.one then dst' else src
    ensures Come(t, dst', src', i + 1, j)
  {
    hide Row, Combined, Nibbles, Place, Copy.Inside, Half, Blitting.Run;
    PixelStored(t, dst, c, i, j, d);
  }

  lemma ComeInside(t: Blitting, dst: seq<Byte>, src: seq<Byte>, i: nat, j: nat)
    requires Come(t, dst, src, i, j) && i < t.k.w && j < t.k.h
    ensures Row(t.k.dpitch, t.k.dsty + j) + (t.k.dstx + i) / 2 < |dst|
    ensures Row(t.k.spitch, t.k.srcy + j) + (t.k.srcx + i) / 2 < |src|
  {
    hide Row, Blitting.Run, Place;
    t.k.InsideAt(|t.from|, |t.before|, i, j);
  }

  // A blit that has come to the end: its result, and that this is right
  lemma ComeEnd(t: Blitting, dst: seq<Byte>, src: seq<Byte>)
    requires Come(t, dst, src, 0, t.k.h)
    ensures t.Valid() && Nibbles(dst) == t.Run(0, t.k.h)
    ensures (t.one ==> Ahead(t.k, t.held)) ==> t.Copied(dst)
  {
    hide Row, Nibbles, Place, Copy.Inside, Blitting.Run, Blitting.Right;
    if t.one ==> Ahead(t.k, t.held) {
      t.RunRight(0, t.k.h);
    }
  }

  const CLEAR: Byte := Fill(8, false)

  /** linear4_blit; `bg` is gr_background. Compositing is not supported: it copies. */
  method Blit(dst: array<Byte>, src: array<Byte>, asked: Copy)
    requires asked.Inside(src.Length, dst.Length)
    modifies dst
    ensures var op := if asked.op > MWROP_SIMPLE_MAX then MWROP_COPY else asked.op;
      var t := Blitting(asked.(op := op), true, dst == src, old(src[..]), old(dst[..]));
      && t.Valid() && Nibbles(dst[..]) == t.Run(0, asked.h)
      && (dst != src || Ahead(asked, true) ==> t.Copied(dst[..]))
  {
    hide *;
    var op := asked.op;
    if op > MWROP_SIMPLE_MAX {
      op := MWROP_COPY;
    }
    var k := asked.(op := op);
    ghost var t := Blitting(k, true, dst == src, src[..], dst[..]);
    BlitStart(t, asked);
    ComeStart(t);
    RowIsProduct(k.dpitch, k.dsty);
    RowIsProduct(k.spitch, k.srcy);
    var d0, s0 := k.dstx / 2 + k.dsty * k.dpitch, k.srcx / 2 + k.srcy * k.spitch;
    var h := 0;
    while h < k.h
      invariant h <= k.h && Come(t, dst[..], src[..], 0, h)
      invariant d0 == Row(k.dpitch, k.dsty + h) + k.dstx / 2 && s0 == Row(k.spitch, k.srcy + h) + k.srcx / 2
    {
      BlitRow(dst, src, k, d0, s0, t, h);
      NextRow(k.dpitch, k.dsty + h);
      NextRow(k.spitch, k.srcy + h);
      d0, s0, h := d0 + k.dpitch, s0 + k.spitch, h + 1;
    }
    ComeEnd(t, dst[..], src[..]);
  }

  lemma BlitStart(t: Blitting, asked: Copy)
    requires asked.Inside(|t.from|, |t.before|) && (t.one ==> t.from == t.before)
    requires t.k == asked.(op := t.k.op)
    ensures t.Valid() && Ahead(asked, t.held) == Ahead(t.k, t.held)
  {
  }

  method BlitRow(dst: array<Byte>, src: array<Byte>, k: Copy, d0: nat, s0: nat, ghost t: Blitting, ghost j: nat)
    requires t.k == k && t.held && t.one == (dst == src) && j < k.h && Come(t, dst[..], src[..], 0, j)
    requires d0 == Row(k.dpitch, k.dsty + j) + k.dstx / 2 && s0 == Row(k.spitch, k.srcy + j) + k.srcx / 2
    modifies dst
    ensures Come(t, dst[..], src[..], 0, j + 1)
  {
    hide *;
    var dx, sx, d, s := k.dstx, k.srcx, d0, s0;
    var c: Byte := if s < src.Length then src[s] else CLEAR;
    ComeSees(t, dst[..], src[..], 0, j);
    ByteFetched(t, src[..], 0, j, c);
    var i := 0;
    while i < k.w
      invariant i <= k.w && dx == k.dstx + i && sx == k.srcx + i && Come(t, dst[..], src[..], i, j)
      invariant d == Row(k.dpitch, k.dsty + j) + dx / 2 && s == Row(k.spitch, k.srcy + j) + sx / 2
      invariant t.Valid() && Holding(t, c, i, j)
    {
      ghost var now, from := dst[..], src[..];
      ComeInside(t, now, from, i, j);
      HoldingHere(t, c, i, j);
      dst[d] := Combined(k.op, k.bg, dst[d], dx, c, sx);
      assert dst[..] == now[d := Combined(k.op, k.bg, now[d], dx, c, sx)];
      ComeNext(t, now, from, c, i, j, d, dst[..], src[..]);
      StillHolding(t, c, i, j);
      dx := dx + 1;
      if dx % 2 == 0 {
        d := d + 1;
      }
      sx := sx + 1;
      if sx % 2 == 0 {
        s := s + 1;
        // the byte after the last one is fetched here too, but never used
        c := if s < src.Length then src[s] else c;
        ComeSees(t, dst[..], src[..], i + 1, j);
        ByteFetched(t, src[..], i + 1, j, c);
      }
      i := i + 1;
    }
    ComeRow(t, dst[..], src[..], j);
  }

  lemma HoldingHere(t: Blitting, c: Byte, i: nat, j: nat)
    requires t.Valid() && i < t.k.w && j < t.k.h && Holding(t, c, i, j)
    ensures Holds(t, c, t.k.Fetched(true, i), i, j)
  {
    hide Holds;
  }
}
