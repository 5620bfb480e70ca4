/** Bitmaps of one bit a pixel, most significant bit first, in rows of whole bytes. */
module BitRows {
  import opened Bits
  import opened Rows

  // Bit x of row y of a bitmap whose rows are `pitch` bytes long
  ghost function BitAt(data: seq<Byte>, pitch: nat, x: nat, y: nat): bool
    requires Row(pitch, y) + x / 8 < |data|
  {
    data[Row(pitch, y) + x / 8][x % 8]
  }

  function WithBit(b: Byte, k: nat): Byte
    requires k < 8
  {
    Or(b, Shr([true, false, false, false, false, false, false, false], k))
  }

  lemma WithBitAt(b: Byte, k: nat, n: nat)
    requires k < 8 && n < 8
    ensures WithBit(b, k)[n] == (n == k || b[n])
  {
  }

  lemma BitIndex(size: nat, pitch: nat, rows: nat, x: nat, y: nat)
    requires Row(pitch, rows) <= size && y < rows && x / 8 < pitch
    ensures Row(pitch, y) + x / 8 < size
  {
    RowMonotone(pitch, y, rows);
  }

  lemma BitAfterSet(data: seq<Byte>, pitch: nat, rows: nat, x0: nat, y0: nat, x: nat, y: nat)
    requires Row(pitch, rows) <= |data| && y0 < rows && y < rows && x0 / 8 < pitch && x / 8 < pitch
    ensures Row(pitch, y0) + x0 / 8 < |data| && Row(pitch, y) + x / 8 < |data|
    ensures var p := Row(pitch, y0) + x0 / 8;
      BitAt(data[p := WithBit(data[p], x0 % 8)], pitch, x, y) == ((x == x0 && y == y0) || BitAt(data, pitch, x, y))
  {
    hide Row, WithBit;
    BitIndex(|data|, pitch, rows, x0, y0);
    BitIndex(|data|, pitch, rows, x, y);
    var p := Row(pitch, y0) + x0 / 8;
    if y < y0 {
      RowMonotone(pitch, y, y0);
    } else if y0 < y {
      RowMonotone(pitch, y0, y);
    } else if x / 8 == x0 / 8 {
      WithBitAt(data[p], x0 % 8, x % 8);
    }
  }
}
