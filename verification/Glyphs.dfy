/** One-bit bitmaps, most significant bit first, drawn in a foreground and a background colour: what the fast
    blits of fblin8.c and fblin4.c have in common. */
module Glyphs {
  import opened Bits
  import opened Rows

  /** fg_pixelval, bg_pixelval and usebg. */
  datatype Pen<T> = Pen(fg: T, bg: T, usebg: bool) {
    function On(bit: bool, under: T): T { if bit then fg else if usebg then bg else under }
  }

  // Drawing the bits one by one on the pixels from d on
  function Stroke<T>(out: seq<T>, d: nat, bits: Bits, pen: Pen<T>): (after: seq<T>)
    requires d + |bits| <= |out|
    ensures |after| == |out|
  {
    seq(|out|, q requires 0 <= q < |out| => if d <= q < d + |bits| then pen.On(bits[q - d], out[q]) else out[q])
  }

  lemma StrokeJoin<T>(out: seq<T>, d: nat, a: Bits, b: Bits, pen: Pen<T>)
    requires d + |a| + |b| <= |out|
    ensures Stroke(Stroke(out, d, a, pen), d + |a|, b, pen) == Stroke(out, d, a + b, pen)
  {
  }

  // Row after row, `stride` pixels apart
  function Strokes<T>(out: seq<T>, d: int, stride: nat, rows: seq<Bits>, pen: Pen<T>): (after: seq<T>)
    requires RowsFit(|out|, d, stride, rows)
    ensures |after| == |out|
    decreases |rows|
  {
    if rows == [] then out else Strokes(Stroke(out, d, rows[0], pen), d + stride, stride, rows[1..], pen)
  }

  predicate RowsFit(size: nat, d: int, stride: nat, rows: seq<Bits>)
    decreases |rows|
  {
    rows == [] || (0 <= d && d + |rows[0]| <= size && RowsFit(size, d + stride, stride, rows[1..]))
  }

  // The bits from bit srcx on of the row of bytes at `base`
  function RowBits(data: seq<Byte>, base: nat, srcx: nat, width: nat): (bits: Bits)
    requires base + (srcx + width + 7) / 8 <= |data|
    ensures |bits| == width
  {
    seq(width, i requires 0 <= i < width => data[base + (srcx + i) / 8][(srcx + i) % 8])
  }

  /** How the drivers cut a row: bits prefix..8 of a first byte, sizeMain whole bytes, and bits postfixFirst to
      postfixLast of a last byte.  A mask is given by the number n of its bit, MWI_BIT_NO(n) == 0x80 >> n,
      so that 8 stands for mask 0. */
  datatype Split = Split(prefix: nat, sizeMain: nat, postfixFirst: nat, postfixLast: nat)

  function SplitOf(srcx: nat, width: nat): Split {
    var prefixFirst, postfixLast := srcx % 8, (srcx + width - 1) % 8;
    var firstByte, lastByte := srcx / 8, (srcx + width - 1) / 8;
    if firstByte != lastByte then
      Split(if prefixFirst == 0 then 8 else prefixFirst,
          lastByte - firstByte + 1 - 2 + (if prefixFirst == 0 then 1 else 0) + (if postfixLast == 7 then 1 else 0), 0,
          if postfixLast == 7 then 8 else postfixLast)
    else if prefixFirst == 0 && postfixLast == 7 then Split(8, 1, 0, 8)
    else Split(8, 0, prefixFirst, postfixLast)
  }

  // The pieces make up the row, and are as many bytes as the row touches
  lemma SplitCovers(srcx: nat, width: nat, s: Split)
    requires s == SplitOf(srcx, width)
    ensures s.prefix <= 8 && (s.prefix < 8 ==> s.prefix == srcx % 8 && s.postfixFirst == 0)
    ensures s.postfixLast <= 8
    ensures s.postfixLast < 8 ==> s.postfixFirst <= s.postfixLast || 0 < s.postfixFirst == s.postfixLast + 1
    ensures s.postfixLast < 8 && s.prefix == 8 && s.sizeMain == 0 ==> s.postfixFirst == srcx % 8
    ensures s.prefix == 8 && s.sizeMain > 0 ==> srcx % 8 == 0 && s.postfixFirst == 0
    ensures width ==
      8 - s.prefix + 8 * s.sizeMain + (if s.postfixLast < 8 then s.postfixLast + 1 - s.postfixFirst else 0)
    ensures (srcx + width - 1) / 8 - srcx / 8 + 1 ==
      (if s.prefix < 8 then 1 else 0) + s.sizeMain + (if s.postfixLast < 8 then 1 else 0)
  {
  }

  // Bits f to t of byte c of a row are bits n to n + t - f of its part from bit srcx on
  lemma Piece(data: seq<Byte>, base: nat, srcx: nat, width: nat, c: nat, f: nat, t: nat, n: nat)
    requires base + (srcx + width + 7) / 8 <= |data| && f <= t <= 8
    requires 8 * c + f == srcx % 8 + n && n + t - f <= width
    ensures f < t ==> base + srcx / 8 + c < |data|
    ensures f < t ==> RowBits(data, base, srcx, width)[n..n + t - f] == data[base + srcx / 8 + c][f..t]
  {
    if f < t {
      var bits, byte := RowBits(data, base, srcx, width), data[base + srcx / 8 + c];
      forall k | 0 <= k < t - f ensures bits[n..n + t - f][k] == byte[f..t][k] {
        assert (srcx + n + k) / 8 == srcx / 8 + c && (srcx + n + k) % 8 == f + k;
      }
    }
  }

  // Drawing one more piece of a row
  lemma PieceDrawn<T>(before: seq<T>, now: seq<T>, d: nat, data: seq<Byte>, base: nat, srcx: nat, width: nat, c: nat,
                      f: nat, t: nat, n: nat, pen: Pen<T>)
    requires base + (srcx + width + 7) / 8 <= |data| && (f < t || 0 < f == t) && t <= 8 && d + width <= |before|
    requires 8 * c + f == srcx % 8 + n && n + t - f <= width
    requires now == Stroke(before, d, RowBits(data, base, srcx, width)[..n], pen)
    ensures base + srcx / 8 + c < |data|
    ensures Stroke(now, d + n, data[base + srcx / 8 + c][f..t], pen)
      == Stroke(before, d, RowBits(data, base, srcx, width)[..n + t - f], pen)
  {
    hide Stroke, RowBits;
    var bits, byte := RowBits(data, base, srcx, width), data[base + srcx / 8 + c];
    RowWidth(data, base, srcx, width);
    Piece(data, base, srcx, width, c, f, t, n);
    Extend(bits, byte, n, f, t);
    StrokeJoin(before, d, bits[..n], byte[f..t], pen);
  }

  lemma RowWidth(data: seq<Byte>, base: nat, srcx: nat, width: nat)
    requires base + (srcx + width + 7) / 8 <= |data|
    ensures |RowBits(data, base, srcx, width)| == width
  {
  }

  lemma Extend(bits: Bits, byte: Byte, n: nat, f: nat, t: nat)
    requires f <= t <= 8 && n + t - f <= |bits| && (f < t ==> bits[n..n + t - f] == byte[f..t])
    ensures bits[..n] + byte[f..t] == bits[..n + t - f]
  {
    if f < t {
      assert bits[..n] + bits[n..n + t - f] == bits[..n + t - f];
    }
  }

  // Drawing one bit more
  lemma StrokeBit<T>(out: seq<T>, d: nat, bits: Bits, bit: bool, pen: Pen<T>)
    requires d + |bits| < |out|
    ensures var now := Stroke(out, d, bits, pen);
      Stroke(out, d, bits + [bit], pen)
        == if bit then now[d + |bits| := pen.fg] else if pen.usebg then now[d + |bits| := pen.bg] else now
  {
  }

  lemma SliceNext(bits: Bits, f: nat, m: nat)
    requires f <= m < |bits|
    ensures bits[f..m] + [bits[m]] == bits[f..m + 1]
  {
  }

  lemma StrokeEmpty<T>(out: seq<T>, d: nat, bits: Bits, pen: Pen<T>)
    requires d <= |out| && bits == []
    ensures Stroke(out, d, bits, pen) == out
  {
  }

  lemma StrokeNothing<T>(out: seq<T>, d: nat, data: seq<Byte>, base: nat, srcx: nat, width: nat, bits: Bits,
                         pen: Pen<T>)
    requires d <= |out| && base + (srcx + width + 7) / 8 <= |data| && bits == RowBits(data, base, srcx, width)
    ensures |bits| == width && bits[..width] == bits
    ensures Stroke(out, d, bits[..0], pen) == out
  {
  }

  predicate Even(rows: seq<Bits>, width: nat) {
    forall j | 0 <= j < |rows| :: |rows[j]| == width
  }

  // Rows that do not overlap: each pixel is drawn by the bit above it, or not at all
  lemma {:induction false} StrokesAt<T>(out: seq<T>, d: int, stride: nat, rows: seq<Bits>, pen: Pen<T>, width: nat,
                                         q: nat, j: nat, i: nat)
    requires RowsFit(|out|, d, stride, rows) && Even(rows, width) && width <= stride
    requires q < |out| && q == d + Row(stride, j) + i && i < stride
    ensures Strokes(out, d, stride, rows, pen)[q] ==
      if j < |rows| && i < width then pen.On(rows[j][i], out[q]) else out[q]
    decreases |rows|
  {
    if rows != [] {
      var out' := Stroke(out, d, rows[0], pen);
      assert rows[0] == rows[0] && |rows[0]| == width;
      if j == 0 {
        StrokesBefore(out', d + stride, stride, rows[1..], pen, q);
      } else {
        StrokesAt(out', d + stride, stride, rows[1..], pen, width, q, j - 1, i);
      }
    }
  }

  lemma {:induction false} StrokesBefore<T>(out: seq<T>, d: int, stride: nat, rows: seq<Bits>, pen: Pen<T>, q: nat)
    requires RowsFit(|out|, d, stride, rows) && q < |out| && q < d
    ensures Strokes(out, d, stride, rows, pen)[q] == out[q]
    decreases |rows|
  {
    if rows != [] {
      StrokesBefore(Stroke(out, d, rows[0], pen), d + stride, stride, rows[1..], pen, q);
    }
  }

  /** A bitmap in memory, and the part of it to be drawn. */
  datatype Bitmap = Bitmap(data: seq<Byte>, pitch: nat, srcx: nat, srcy: nat, width: nat, height: nat) {

    ghost predicate Fits() {
      height > 0 ==> Row(pitch, srcy + height - 1) + (srcx + width + 7) / 8 <= |data|
    }

    lemma RowFits(j: nat)
      requires Fits() && j < height
      ensures Row(pitch, srcy + j) + (srcx + width + 7) / 8 <= |data|
    {
      if j < height - 1 { RowMonotone(pitch, srcy + j, srcy + height - 1); }
    }

    // The bit of the bitmap that pixel (i, j) of the drawing takes
    ghost function Bit(i: nat, j: nat): bool
      requires Fits() && i < width && j < height
    {
      RowFits(j);
      data[Row(pitch, srcy + j) + (srcx + i) / 8][(srcx + i) % 8]
    }

    ghost function Line(j: nat): (bits: Bits)
      requires Fits() && j < height
      ensures |bits| == width
    {
      RowFits(j);
      RowBits(data, Row(pitch, srcy + j), srcx, width)
    }

    ghost function Lines(): (rows: seq<Bits>)
      requires Fits()
      ensures |rows| == height && Even(rows, width)
    {
      seq(height, j requires 0 <= j < height => Line(j))
    }

    lemma LineIs(j: nat, base: nat)
      requires Fits() && j < height && base == Row(pitch, srcy + j)
      ensures base + (srcx + width + 7) / 8 <= |data|
      ensures Lines()[j] == RowBits(data, base, srcx, width)
      ensures base + pitch == Row(pitch, srcy + j + 1)
    {
      RowFits(j);
    }

    lemma LinesAt(i: nat, j: nat)
      requires Fits() && i < width && j < height
      ensures Lines()[j][i] == Bit(i, j)
    {
    }
  }

  // Lines that end in time fit
  lemma {:induction false} LinesFit(size: nat, d: int, stride: nat, rows: seq<Bits>, width: nat)
    requires Even(rows, width) && 0 <= d && (rows != [] ==> d + Row(stride, |rows| - 1) + width <= size)
    ensures RowsFit(size, d, stride, rows)
    decreases |rows|
  {
    if rows != [] {
      assert |rows[0]| == width;
      LinesFit(size, d + stride, stride, rows[1..], width);
    }
  }

  // Drawing on a surface of rows `stride` pixels apart, from (dstx, dsty) on: pixel (x, y), or any place x < stride of
  // row y
  lemma StrokesOn<T>(out: seq<T>, stride: nat, b: Bitmap, pen: Pen<T>, dstx: nat, dsty: nat, x: nat, y: nat)
    requires b.Fits() && dstx + b.width <= stride && x < stride && Row(stride, y) + x < |out|
    requires b.height > 0 ==> Row(stride, dsty + b.height - 1) + dstx + b.width <= |out|
    ensures RowsFit(|out|, Row(stride, dsty) + dstx, stride, b.Lines())
    ensures Strokes(out, Row(stride, dsty) + dstx, stride, b.Lines(), pen)[Row(stride, y) + x]
      == if dstx <= x < dstx + b.width && dsty <= y < dsty + b.height
         then pen.On(b.Bit(x - dstx, y - dsty), out[Row(stride, y) + x]) else out[Row(stride, y) + x]
  {
    hide Strokes, RowsFit, Bitmap.Bit, Bitmap.Lines, Bitmap.Fits, Pen.On;
    var d, q := Row(stride, dsty) + dstx, Row(stride, y) + x;
    if b.height > 0 { RowSum(stride, dsty, b.height - 1); }
    LinesFit(|out|, d, stride, b.Lines(), b.width);
    if y < dsty || (y == dsty && x < dstx) {
      if y < dsty { RowMonotone(stride, y, dsty); }
      StrokesBefore(out, d, stride, b.Lines(), pen, q);
    } else if x >= dstx {
      RowSum(stride, dsty, y - dsty);
      StrokesAt(out, d, stride, b.Lines(), pen, b.width, q, y - dsty, x - dstx);
      if x < dstx + b.width && y < dsty + b.height {
        b.LinesAt(x - dstx, y - dsty);
      }
    } else {
      RowSum(stride, dsty, y - dsty);
      StrokesAt(out, d, stride, b.Lines(), pen, b.width, q, y - dsty - 1, x + stride - dstx);
    }
  }

  // What lies behind the last row is never touched
  lemma StrokesAfter<T>(out: seq<T>, stride: nat, b: Bitmap, pen: Pen<T>, dstx: nat, dsty: nat, rows: nat, q: nat)
    requires b.Fits() && dstx + b.width <= stride && dsty + b.height <= rows && Row(stride, rows) <= q < |out|
    ensures RowsFit(|out|, Row(stride, dsty) + dstx, stride, b.Lines())
    ensures Strokes(out, Row(stride, dsty) + dstx, stride, b.Lines(), pen)[q] == out[q]
  {
    var d := Row(stride, dsty) + dstx;
    RowSum(stride, dsty, b.height);
    if b.height > 0 {
      RowMonotone(stride, dsty + b.height - 1, rows);
      RowSum(stride, dsty, b.height - 1);
    }
    LinesFit(|out|, d, stride, b.Lines(), b.width);
    if dsty + b.height < rows { RowMonotone(stride, dsty + b.height, rows); }
    StrokesBeyond(out, d, stride, b.Lines(), pen, b.width, q);
  }

  lemma {:induction false} StrokesBeyond<T>(out: seq<T>, d: int, stride: nat, rows: seq<Bits>, pen: Pen<T>,
      width: nat, q: nat)
    requires RowsFit(|out|, d, stride, rows) && Even(rows, width) && width <= stride
    requires q < |out| && (rows != [] ==> d + Row(stride, |rows| - 1) + width <= q)
    ensures Strokes(out, d, stride, rows, pen)[q] == out[q]
    decreases |rows|
  {
    if rows != [] {
      assert |rows[0]| == width;
      StrokesBeyond(Stroke(out, d, rows[0], pen), d + stride, stride, rows[1..], pen, width, q);
    }
  }

  /** The parameters of a glyph blit. */
  datatype GlyphParms = GlyphParms(width: nat, height: nat, dstx: nat, dsty: nat, srcx: nat, srcy: nat, srcPitch: nat,
                                   dstPitch: nat, fg: Byte, bg: Byte, usebg: bool) {
    function Source(data: seq<Byte>): Bitmap { Bitmap(data, srcPitch, srcx, srcy, width, height) }
  }

  // What is still to be drawn gives what is to be drawn in all
  ghost predicate Remaining<T>(before: seq<T>, now: seq<T>, d0: int, d: int, stride: nat, lines: seq<Bits>, y: nat,
                               pen: Pen<T>) {
    && y <= |lines| && RowsFit(|before|, d0, stride, lines) && RowsFit(|now|, d, stride, lines[y..])
    && Strokes(now, d, stride, lines[y..], pen) == Strokes(before, d0, stride, lines, pen)
  }

  lemma RemainingRow<T>(before: seq<T>, now: seq<T>, d0: int, d: int, stride: nat, lines: seq<Bits>, y: nat,
                        pen: Pen<T>)
    requires Remaining(before, now, d0, d, stride, lines, y, pen) && y < |lines|
    ensures 0 <= d && d + |lines[y]| <= |now|
    ensures Remaining(before, Stroke(now, d, lines[y], pen), d0, d + stride, stride, lines, y + 1, pen)
  {
    assert lines[y..][0] == lines[y] && lines[y..][1..] == lines[y + 1..];
  }

  lemma RemainingAll<T>(out: seq<T>, d: int, stride: nat, lines: seq<Bits>, pen: Pen<T>)
    requires RowsFit(|out|, d, stride, lines)
    ensures Remaining(out, out, d, d, stride, lines, 0, pen)
  {
    assert lines[0..] == lines;
  }

  lemma RemainingNone<T>(before: seq<T>, now: seq<T>, d0: int, d: int, stride: nat, lines: seq<Bits>, pen: Pen<T>)
    requires Remaining(before, now, d0, d, stride, lines, |lines|, pen)
    ensures RowsFit(|before|, d0, stride, lines) && now == Strokes(before, d0, stride, lines, pen)
  {
    assert lines[|lines|..] == [];
  }

  lemma FirstByte(pitch: nat, y: nat, x: nat)
    ensures pitch * y + x == Row(pitch, y) + x
  {
    RowIsProduct(pitch, y);
  }
}
