/** Byte-addressed framebuffers whose pixels are 1 to 4 bytes, and walks over their pixels. */
module Frames {
  import opened Bits
  import opened Rows

  // Overwriting |v| bytes at p
  function Spliced(bytes: seq<Byte>, p: nat, v: seq<Byte>): (after: seq<Byte>)
    requires p + |v| <= |bytes|
    ensures |after| == |bytes|
  {
    bytes[..p] + v + bytes[p + |v|..]
  }

  lemma SplicedByte(bytes: seq<Byte>, p: nat, v: Byte)
    requires p < |bytes|
    ensures Spliced(bytes, p, [v]) == bytes[p := v]
  {
  }

  lemma SplicedSlice(bytes: seq<Byte>, p: nat, v: seq<Byte>, q: nat)
    requires p + |v| <= |bytes| && q + |v| <= |bytes| && (p == q || p + |v| <= q || q + |v| <= p)
    ensures Spliced(bytes, p, v)[q..q + |v|] == if p == q then v else bytes[q..q + |v|]
  {
  }

  /** What a framebuffer's memory shows: cols x rows pixels of n bytes, one row every pitch bytes. */
  datatype Frame = Frame(pitch: nat, n: nat, cols: nat, rows: nat, bytes: seq<Byte>) {

    ghost predicate Valid() {
      n > 0 && Row(n, cols) <= pitch && Row(pitch, rows) <= |bytes|
    }

    predicate In(x: int, y: int) {
      0 <= x < cols && 0 <= y < rows
    }

    ghost function Addr(x: nat, y: nat): nat {
      Row(pitch, y) + Row(n, x)
    }

    lemma AddrIn(x: nat, y: nat)
      requires Valid() && In(x, y)
      ensures Addr(x, y) + n <= Row(pitch, y) + Row(n, cols) <= Row(pitch, y) + pitch <= Row(pitch, rows)
    {
      RowMonotone(n, x, cols);
      RowMonotone(pitch, y, rows);
    }

    lemma AddrApart(x: nat, y: nat, x': nat, y': nat)
      requires Valid() && In(x, y) && In(x', y') && (x != x' || y != y')
      ensures Addr(x, y) + n <= Addr(x', y') || Addr(x', y') + n <= Addr(x, y)
    {
      if y == y' {
        if x < x' { RowMonotone(n, x, x'); } else { RowMonotone(n, x', x); }
      } else {
        AddrIn(x, y);
        AddrIn(x', y');
        if y < y' { RowMonotone(pitch, y, y'); } else { RowMonotone(pitch, y', y); }
      }
    }

    // The bytes of pixel (x, y)
    ghost function At(x: int, y: int): (v: seq<Byte>)
      requires Valid() && In(x, y)
      ensures |v| == n
    {
      AddrIn(x, y);
      bytes[Addr(x, y)..Addr(x, y) + n]
    }

    // With one-byte pixels
    lemma OneByte(x: int, y: int)
      requires Valid() && In(x, y) && n == 1
      ensures Addr(x, y) == Row(pitch, y) + x < |bytes| && At(x, y) == [bytes[Row(pitch, y) + x]]
    {
      AddrIn(x, y);
      RowIsProduct(1, x);
    }

    // Byte b of row y
    ghost function Offset(y: nat, b: nat): nat {
      Row(pitch, y) + b
    }

    predicate SameShape(f: Frame) {
      f.pitch == pitch && f.n == n && f.cols == cols && f.rows == rows && |f.bytes| == |bytes|
    }

    // No byte outside the pixels has changed
    ghost predicate SamePadding(after: Frame) {
      && SameShape(after)
      && (forall y: nat, b: nat {:trigger Offset(y, b)}
           | y < rows && Row(n, cols) <= b < pitch && Offset(y, b) < |bytes| ::
            after.bytes[Offset(y, b)] == bytes[Offset(y, b)])
      && (forall p | Row(pitch, rows) <= p < |bytes| :: after.bytes[p] == bytes[p])
    }

    lemma AtAfterPut(x: int, y: int, v: seq<Byte>, x': int, y': int)
      requires Valid() && In(x, y) && In(x', y') && |v| == n
      ensures Addr(x, y) + n <= |bytes|
      ensures var after := this.(bytes := Spliced(bytes, Addr(x, y), v));
        after.Valid() && after.At(x', y') == if x' == x && y' == y then v else At(x', y')
    {
      hide Row, Spliced;
      AddrIn(x, y);
      AddrIn(x', y');
      if x' != x || y' != y {
        AddrApart(x, y, x', y');
      }
      SplicedSlice(bytes, Addr(x, y), v, Addr(x', y'));
    }

    lemma PaddingAfterPut(x: int, y: int, v: seq<Byte>)
      requires Valid() && In(x, y) && |v| == n
      ensures Addr(x, y) + n <= |bytes|
      ensures SamePadding(this.(bytes := Spliced(bytes, Addr(x, y), v)))
    {
      AddrIn(x, y);
      var after := this.(bytes := Spliced(bytes, Addr(x, y), v));
      forall y': nat, b: nat {:trigger Offset(y', b)}
        | y' < rows && Row(n, cols) <= b < pitch && Offset(y', b) < |bytes|
        ensures after.bytes[Offset(y', b)] == bytes[Offset(y', b)]
      {
        if y' < y {
          RowMonotone(pitch, y', y);
        } else if y < y' {
          RowMonotone(pitch, y, y');
        }
      }
    }

    lemma PaddingChain(middle: Frame, after: Frame)
      requires SamePadding(middle) && middle.SamePadding(after)
      ensures SamePadding(after)
    {
      forall y: nat, b: nat {:trigger Offset(y, b)} | y < rows && Row(n, cols) <= b < pitch && Offset(y, b) < |bytes|
        ensures after.bytes[Offset(y, b)] == bytes[Offset(y, b)]
      {
        assert middle.Offset(y, b) == Offset(y, b);
      }
    }
  }

  /** A direction in a framebuffer; rows grow to the south. */
  datatype Dir = East | South | West | North {

    predicate Flat() { East? || West? }

    // The pointer increment of one pixel in this direction
    function Step(n: nat, pitch: nat): int {
      if East? then n else if South? then pitch else if West? then 0 - n else 0 - pitch
    }
  }

  /** A walk over pixels: column i and row j of it start at (x0, y0) and go in two perpendicular directions. */
  datatype Grid = Grid(x0: int, y0: int, across: Dir, down: Dir) {

    predicate Square() { across.Flat() != down.Flat() }

    function X(i: int, j: int): int {
      if across.East? then x0 + i else if across.West? then x0 - i else if down.East? then x0 + j else x0 - j
    }

    function Y(i: int, j: int): int {
      if across.South? then y0 + i else if across.North? then y0 - i else if down.South? then y0 + j else y0 - j
    }

    // The column and the row of the walk that come to (x, y)
    function I(x: int, y: int): int {
      match across case East => x - x0 case South => y - y0 case West => x0 - x case North => y0 - y
    }

    function J(x: int, y: int): int {
      match down case East => x - x0 case South => y - y0 case West => x0 - x case North => y0 - y
    }

    lemma Inverse(i: int, j: int, x: int, y: int)
      requires Square()
      ensures X(i, j) == x && Y(i, j) == y <==> I(x, y) == i && J(x, y) == j
    {
    }

    // A w x h walk stays inside the frame
    predicate Within(f: Frame, w: int, h: int) {
      w > 0 && h > 0 ==> f.In(X(0, 0), Y(0, 0)) && f.In(X(w - 1, h - 1), Y(w - 1, h - 1))
    }

    lemma Stays(f: Frame, w: int, h: int, i: int, j: int)
      requires Square() && Within(f, w, h) && 0 <= i < w && 0 <= j < h
      ensures f.In(X(i, j), Y(i, j))
    {
    }

    lemma StepAcross(f: Frame, i: int, j: int)
      requires Square() && f.In(X(i, j), Y(i, j)) && f.In(X(i + 1, j), Y(i + 1, j))
      ensures f.Addr(X(i + 1, j), Y(i + 1, j)) == f.Addr(X(i, j), Y(i, j)) + across.Step(f.n, f.pitch)
    {
    }

    lemma StepDown(f: Frame, i: int, j: int)
      requires Square() && f.In(X(i, j), Y(i, j)) && f.In(X(i, j + 1), Y(i, j + 1))
      ensures f.Addr(X(i, j + 1), Y(i, j + 1)) == f.Addr(X(i, j), Y(i, j)) + down.Step(f.n, f.pitch)
    {
    }
  }
}
