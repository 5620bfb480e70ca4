/** Bitmaps that an HBF file holds column by column (get_transposed and copy_transposed of hbf.c). */
module HbfTranspose {
  import opened Bits
  import opened Rows
  import opened BitRows

  // The source bytes of `width` columns of `height` bits, from `at` on
  ghost predicate Held(width: nat, height: nat, f: seq<Byte>, at: nat) {
    at + Row((height + 7) / 8, width) <= |f|
  }

  // Bit y of column x in the file
  ghost function InBit(width: nat, height: nat, f: seq<Byte>, at: nat, x: nat, y: nat): bool
    requires at <= |f| && at + Row((height + 7) / 8, x) + y / 8 < |f|
  {
    f[at + Row((height + 7) / 8, x) + y / 8][y % 8]
  }

  // Columns before x, and the first y bits of column x, have been copied; the rest is clear
  ghost predicate Copied(width: nat, height: nat, f: seq<Byte>, at: nat, bitmap: seq<Byte>, x: nat, y: nat) {
    && Row((width + 7) / 8, height) == |bitmap|
    && (x < width ==> at + Row((height + 7) / 8, x) + (y + 7) / 8 <= |f|) && (x >= width ==> Held(width, height, f, at))
    && forall i: nat, j: nat {:trigger CopiedBit(width, height, f, at, bitmap, x, y, i, j)}
         | i < 8 * ((width + 7) / 8) && j < height ::
         CopiedBit(width, height, f, at, bitmap, x, y, i, j)
  }

  ghost predicate CopiedBit(width: nat, height: nat, f: seq<Byte>, at: nat, bitmap: seq<Byte>, x: nat, y: nat, i: nat,
                            j: nat)
    requires Row((width + 7) / 8, height) == |bitmap| && i < 8 * ((width + 7) / 8) && j < height
  {
    BitIndex(|bitmap|, (width + 7) / 8, height, i, j);
    BitAt(bitmap, (width + 7) / 8, i, j) ==
      (i < width && (i < x || (i == x && j < y)) && at + Row((height + 7) / 8, i) + j / 8 < |f|
          && InBit(width, height, f, at, i, j))
  }

  lemma CopiedStart(width: nat, height: nat, f: seq<Byte>, at: nat, bitmap: seq<Byte>)
    requires at <= |f| && |bitmap| == Row((width + 7) / 8, height) && forall p | 0 <= p < |bitmap| ::
      bitmap[p] == Fill(8, false)
    requires width > 0
    ensures Copied(width, height, f, at, bitmap, 0, 0)
  {
    forall i: nat, j: nat {:trigger CopiedBit(width, height, f, at, bitmap, 0, 0, i, j)}
      | i < 8 * ((width + 7) / 8) && j < height
      ensures CopiedBit(width, height, f, at, bitmap, 0, 0, i, j)
    {
      BitIndex(|bitmap|, (width + 7) / 8, height, i, j);
    }
  }

  // Copying bit y of column x
  lemma CopiedNext(width: nat, height: nat, f: seq<Byte>, at: nat, bitmap: seq<Byte>, x: nat, y: nat, p: nat,
                   after: seq<Byte>)
    requires Copied(width, height, f, at, bitmap, x, y) && x < width && y < height
    requires at + Row((height + 7) / 8, x) + y / 8 < |f| && p == Row((width + 7) / 8, y) + x / 8 < |bitmap|
    requires after == if InBit(width, height, f, at, x, y) then bitmap[p := WithBit(bitmap[p], x % 8)] else bitmap
    ensures Copied(width, height, f, at, after, x, y + 1)
  {
    hide Row, BitAt, WithBit, InBit;
    var y' := y + 1;
    forall i: nat, j: nat {:trigger CopiedBit(width, height, f, at, after, x, y', i, j)}
      | i < 8 * ((width + 7) / 8) && j < height
      ensures CopiedBit(width, height, f, at, after, x, y', i, j)
    {
      assert CopiedBit(width, height, f, at, bitmap, x, y, i, j);
      BitAfterSet(bitmap, (width + 7) / 8, height, x, y, i, j);
    }
  }

  lemma CopiedColumn(width: nat, height: nat, f: seq<Byte>, at: nat, bitmap: seq<Byte>, x: nat)
    requires Copied(width, height, f, at, bitmap, x, height) && x < width
    ensures Copied(width, height, f, at, bitmap, x + 1, 0)
    ensures Row((height + 7) / 8, x + 1) == Row((height + 7) / 8, x) + (height + 7) / 8
  {
    var x' := x + 1;
    forall i: nat, j: nat {:trigger CopiedBit(width, height, f, at, bitmap, x', 0, i, j)}
      | i < 8 * ((width + 7) / 8) && j < height
      ensures CopiedBit(width, height, f, at, bitmap, x', 0, i, j)
    {
      assert CopiedBit(width, height, f, at, bitmap, x, height, i, j);
    }
  }

  // Bit x of output row y is bit y of input row x, and the bits that fill up a row are clear
  ghost predicate Transposed(width: nat, height: nat, f: seq<Byte>, at: nat, bitmap: seq<Byte>) {
    && Held(width, height, f, at) && |bitmap| == Row((width + 7) / 8, height)
    && forall i: nat, j: nat {:trigger TransposedBit(width, height, f, at, bitmap, i, j)}
         | i < 8 * ((width + 7) / 8) && j < height ::
         TransposedBit(width, height, f, at, bitmap, i, j)
  }

  ghost predicate TransposedBit(width: nat, height: nat, f: seq<Byte>, at: nat, bitmap: seq<Byte>, i: nat, j: nat)
    requires Held(width, height, f, at) && |bitmap| == Row((width + 7) / 8, height) && i < 8 * ((width + 7) / 8)
        && j < height
  {
    BitIndex(|bitmap|, (width + 7) / 8, height, i, j);
    if i < width then
      BitIndex(|f| - at, (height + 7) / 8, width, j, i);
      BitAt(bitmap, (width + 7) / 8, i, j) == InBit(width, height, f, at, i, j)
    else !BitAt(bitmap, (width + 7) / 8, i, j)
  }

  lemma CopiedAll(width: nat, height: nat, f: seq<Byte>, at: nat, bitmap: seq<Byte>)
    requires Copied(width, height, f, at, bitmap, width, 0)
    ensures Transposed(width, height, f, at, bitmap)
  {
    forall i: nat, j: nat {:trigger TransposedBit(width, height, f, at, bitmap, i, j)}
      | i < 8 * ((width + 7) / 8) && j < height
      ensures TransposedBit(width, height, f, at, bitmap, i, j)
    {
      assert CopiedBit(width, height, f, at, bitmap, width, 0, i, j);
      if i < width {
        BitIndex(|f| - at, (height + 7) / 8, width, j, i);
      }
    }
  }

  // The pointer into the bitmap passes its end with the last row
  lemma PastEnd(rowSize: nat, height: nat, y: nat, c: nat)
    requires c < rowSize
    ensures Row(rowSize, y) + c >= Row(rowSize, height) <==> y >= height
  {
    if y < height { RowMonotone(rowSize, y, height); }
    if height < y { RowMonotone(rowSize, height, y); }
  }

  /** get_transposed: `next` is where the file is left; false if the file ends too soon */
  method GetTransposed(width: nat, height: nat, f: seq<Byte>, at: nat)
    returns (ok: bool, bitmap: array<Byte>, next: nat)
    requires width > 0 && height > 0 && at <= |f|
    ensures ok <==> Held(width, height, f, at)
    ensures ok ==> Transposed(width, height, f, at, bitmap[..]) && next == at + width * ((height + 7) / 8)
    ensures fresh(bitmap)
  {
    hide Row, Copied, BitAt, WithBit, CopiedBit, Transposed, Held;
    var rowSize := (width + 7) / 8;
    RowIsProduct(rowSize, height);
    bitmap := new Byte[rowSize * height](_ => Fill(8, false));
    var bmEnd := bitmap.Length;
    next := at;
    CopiedStart(width, height, f, at, bitmap[..]);
    ghost var rb := (height + 7) / 8;
    RowZero(rb);
    var x := 0;
    while x < width
      invariant 0 <= x <= width && fresh(bitmap) && next == at + Row(rb, x) <= |f|
      invariant Copied(width, height, f, at, bitmap[..], x, 0)
    {
      ok, next := Column(width, height, f, at, bitmap, next, x);
      if !ok {
        return;
      }
      CopiedColumn(width, height, f, at, bitmap[..], x);
      x := x + 1;
    }
    ok := true;
    RowIsProduct(rb, width);
    CopiedAll(width, height, f, at, bitmap[..]);
    AllHeld(width, height, f, at);
  }

  lemma RowZero(n: nat)
    ensures Row(n, 0) == 0
  {
  }

  lemma AllHeld(width: nat, height: nat, f: seq<Byte>, at: nat)
    ensures Held(width, height, f, at) <==> at + Row((height + 7) / 8, width) <= |f|
  {
  }

  // A file that ends inside column x does not hold all columns
  lemma NotHeld(width: nat, height: nat, f: seq<Byte>, at: nat, x: nat, y: nat)
    requires x < width && y < height && at + Row((height + 7) / 8, x) + y / 8 >= |f|
    ensures !Held(width, height, f, at)
  {
    RowMonotone((height + 7) / 8, x, width);
  }

  /** One column: bytes from `next` on, until the pointer passes the end of the bitmap. */
  method Column(width: nat, height: nat, f: seq<Byte>, ghost at: nat, bitmap: array<Byte>, from: nat,
                x: nat) returns (ok: bool, next: nat)
    requires x < width && height > 0 && at <= from == at + Row((height + 7) / 8, x) <= |f|
    requires Copied(width, height, f, at, bitmap[..], x, 0)
    modifies bitmap
    ensures !ok ==> !Held(width, height, f, at)
    ensures ok ==> next == from + (height + 7) / 8 <= |f| && Copied(width, height, f, at, bitmap[..], x, height)
  {
    hide Row, Copied, BitAt, WithBit, CopiedBit, Held;
    var rowSize := (width + 7) / 8;
    var bmEnd := bitmap.Length;
    var pos, done := x / 8, false;
    ghost var y := 0;
    RowZero(rowSize);
    next := from;
    while !done
      invariant 0 <= y <= height && done == (y == height) && (!done ==> y % 8 == 0) && next == from + (y + 7) / 8 <= |f|
      invariant pos == Row(rowSize, y) + x / 8 && Copied(width, height, f, at, bitmap[..], x, y)
      decreases height - y
    {
      if next == |f| {
        NotHeld(width, height, f, at, x, y);
        return false, next;
      }
      var c, imask := f[next], 0;
      ghost var y0 := y;
      next := next + 1;
      while imask < 8 && !done
        invariant 0 <= imask <= 8 && y == y0 + imask <= height && done == (y == height)
        invariant pos == Row(rowSize, y) + x / 8 && Copied(width, height, f, at, bitmap[..], x, y)
      {
        ghost var before := bitmap[..];
        InBounds(width, height, f, at, before, x, y, c, from);
        if c[imask] {
          bitmap[pos] := WithBit(bitmap[pos], x % 8);
        }
        CopiedNext(width, height, f, at, before, x, y, pos, bitmap[..]);
        NextRow(rowSize, y);
        pos, imask, y := pos + rowSize, imask + 1, y + 1;
        PastEnd(rowSize, height, y, x / 8);
        done := pos >= bmEnd;
      }
    }
    ok := true;
  }

  lemma InBounds(width: nat, height: nat, f: seq<Byte>, at: nat, bitmap: seq<Byte>, x: nat, y: nat, c: Byte, from: nat)
    requires Copied(width, height, f, at, bitmap, x, y) && x < width && y < height
    requires from == at + Row((height + 7) / 8, x) && from + y / 8 < |f| && c == f[from + y / 8]
    ensures Row((width + 7) / 8, height) == |bitmap| && Row((width + 7) / 8, y) + x / 8 < |bitmap|
    ensures InBit(width, height, f, at, x, y) == c[y % 8]
  {
    BitIndex(|bitmap|, (width + 7) / 8, height, x, y);
  }
}
