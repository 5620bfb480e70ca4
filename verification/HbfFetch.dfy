/** Fetching the bitmap of a code from its file (get_bitmap of hbf.c): read or transposed, and perhaps inverted. */
module HbfFetch {
  import opened Bits
  import opened Rows
  import opened BitRows
  import opened HbfCodes
  import opened Hbf
  import HbfTranspose

  // The bytes of a bitmap in its file, by rows or by columns
  ghost function FileBytes(width: nat, height: nat, transposed: bool): nat {
    if transposed then Row((height + 7) / 8, width) else Row((width + 7) / 8, height)
  }

  // Where the bitmap of a code is in the file: as many bitmaps behind the offset as legal codes come before it
  ghost function FileAt(l: seq<Span>, width: nat, height: nat, r: CodeRange, code: int): int
    requires LegalCode(l, code) && Position(l, code) >= r.pos
  {
    r.offset + Row(FileBytes(width, height, r.transposed), Position(l, code) - r.pos)
  }

  // FileBitmapSize is the bytes of that many columns or rows
  lemma BitmapSizeIs(width: nat, height: nat, transposed: bool)
    ensures BitmapSize(width, height, transposed) == FileBytes(width, height, transposed)
  {
    RowIsProduct((height + 7) / 8, width);
    RowIsProduct((width + 7) / 8, height);
  }

  lemma OffsetIsFileAt(l: seq<Span>, width: nat, height: nat, r: CodeRange, code: int)
    requires LegalCode(l, code) && Position(l, code) >= r.pos
    ensures Offset(l, width, height, r, code) == FileAt(l, width, height, r, code)
  {
    hide BitmapSize, FileBytes, LegalCode, Position, Row;
    BitmapSizeIs(width, height, r.transposed);
    RowIsProduct(FileBytes(width, height, r.transposed), Position(l, code) - r.pos);
  }

  // A legal code of a sound range does not come before the range
  lemma PositionFrom(l: seq<Span>, width: nat, height: nat, r: CodeRange, code: int)
    requires Sorted(l) && Sound(l, width, height, r) && LegalCode(l, code) && r.Has(code)
    ensures Position(l, code) >= r.pos
  {
    if code > r.start { PositionMonotone(l, r.start, code); }
  }

  // The bitmap of a code is followed by that of the code with the next position
  lemma NextBitmap(l: seq<Span>, width: nat, height: nat, r: CodeRange, code: int, code': int)
    requires LegalCode(l, code) && LegalCode(l, code') && Position(l, code') == Position(l, code) + 1
    requires Position(l, code) >= r.pos
    ensures FileAt(l, width, height, r, code')
      == FileAt(l, width, height, r, code) + FileBytes(width, height, r.transposed)
  {
    NextRow(FileBytes(width, height, r.transposed), Position(l, code) - r.pos);
  }

  // Bit (x, y) of a character whose bitmap is at `at` in file f: by columns if it is transposed, else by rows
  ghost function CharBit(width: nat, height: nat, f: seq<Byte>, at: nat, transposed: bool, x: nat, y: nat): bool
    requires at + FileBytes(width, height, transposed) <= |f| && x < width && y < height
  {
    if transposed then
      BitIndex(|f| - at, (height + 7) / 8, width, y, x);
      f[at + Row((height + 7) / 8, x) + y / 8][y % 8]
    else
      BitIndex(|f| - at, (width + 7) / 8, height, x, y);
      f[at + Row((width + 7) / 8, y) + x / 8][x % 8]
  }

  // A bitmap by rows that shows the character, or its negative
  ghost predicate Shows(width: nat, height: nat, f: seq<Byte>, at: nat, transposed: bool, inverted: bool,
                        bitmap: seq<Byte>)
    requires at + FileBytes(width, height, transposed) <= |f|
  {
    && |bitmap| == Row((width + 7) / 8, height)
    && forall x: nat, y: nat {:trigger CharBit(width, height, f, at, transposed, x, y)} | x < width && y < height ::
         ShowsBit(width, height, f, at, transposed, inverted, bitmap, x, y)
  }

  ghost predicate ShowsBit(width: nat, height: nat, f: seq<Byte>, at: nat, transposed: bool, inverted: bool,
                           bitmap: seq<Byte>, x: nat, y: nat)
    requires at + FileBytes(width, height, transposed) <= |f| && |bitmap| == Row((width + 7) / 8, height)
    requires x < width && y < height
  {
    BitIndex(|bitmap|, (width + 7) / 8, height, x, y);
    BitAt(bitmap, (width + 7) / 8, x, y) == (CharBit(width, height, f, at, transposed, x, y) != inverted)
  }

  lemma TransposedShows(width: nat, height: nat, f: seq<Byte>, at: nat, bitmap: seq<Byte>)
    requires HbfTranspose.Transposed(width, height, f, at, bitmap)
    ensures at + FileBytes(width, height, true) <= |f| && Shows(width, height, f, at, true, false, bitmap)
  {
    hide Row, BitAt;
    forall x: nat, y: nat | x < width && y < height
      ensures ShowsBit(width, height, f, at, true, false, bitmap, x, y)
    {
      assert HbfTranspose.TransposedBit(width, height, f, at, bitmap, x, y);
    }
  }

  lemma ReadShows(width: nat, height: nat, f: seq<Byte>, at: nat, bitmap: seq<Byte>)
    requires at + FileBytes(width, height, false) <= |f| && bitmap == f[at..at + FileBytes(width, height, false)]
    ensures Shows(width, height, f, at, false, false, bitmap)
  {
    hide Row;
    forall x: nat, y: nat | x < width && y < height
      ensures ShowsBit(width, height, f, at, false, false, bitmap, x, y)
    {
      BitIndex(|bitmap|, (width + 7) / 8, height, x, y);
    }
  }

  lemma InvertedShows(width: nat, height: nat, f: seq<Byte>, at: nat, transposed: bool, bitmap: seq<Byte>,
                      after: seq<Byte>)
    requires at + FileBytes(width, height, transposed) <= |f|
    requires Shows(width, height, f, at, transposed, false, bitmap)
    requires |after| == |bitmap| && forall p | 0 <= p < |bitmap| :: after[p] == Xor(bitmap[p], Fill(8, true))
    ensures Shows(width, height, f, at, transposed, true, after)
  {
    hide Row, CharBit;
    forall x: nat, y: nat | x < width && y < height
      ensures ShowsBit(width, height, f, at, transposed, true, after, x, y)
    {
      assert ShowsBit(width, height, f, at, transposed, false, bitmap, x, y);
      BitIndex(|bitmap|, (width + 7) / 8, height, x, y);
    }
  }

  /** invert */
  method Invert(buffer: array<Byte>)
    modifies buffer
    ensures forall p | 0 <= p < buffer.Length :: buffer[p] == Xor(old(buffer[p]), Fill(8, true))
  {
    var p := 0;
    while p < buffer.Length
      invariant 0 <= p <= buffer.Length
      invariant forall q | 0 <= q < p :: buffer[q] == Xor(old(buffer[q]), Fill(8, true))
      invariant forall q | p <= q < buffer.Length :: buffer[q] == old(buffer[q])
    {
      buffer[p] := Xor(buffer[p], Fill(8, true));
      p := p + 1;
    }
  }

  /** fread of one block */
  method ReadBlock(f: seq<Byte>, at: nat, size: nat) returns (ok: bool, buffer: array<Byte>)
    requires at <= |f|
    ensures ok <==> at + size <= |f|
    ensures ok ==> buffer[..] == f[at..at + size]
    ensures fresh(buffer)
  {
    ok := at + size <= |f|;
    if ok {
      buffer := new Byte[size](i requires 0 <= i < size => f[at + i]);
    } else {
      buffer := new Byte[0];
    }
  }

  // The first range that has a code gives it a bitmap inside the file
  ghost predicate Fetchable(hbf: HbfStruct, code: int, range: int)
    reads hbf
  {
    && 0 <= range < |hbf.codeRange| && hbf.codeRange[range].Has(code) && LegalCode(hbf.byte2Range, code)
    && Position(hbf.byte2Range, code) >= hbf.codeRange[range].pos
    && FileAt(hbf.byte2Range, hbf.width, hbf.height, hbf.codeRange[range], code) >= 0
  }

  /** get_bitmap: files[i] is what the bitmap file of range i holds; a negative offset cannot be sought */
  method Fetch(hbf: HbfStruct, files: seq<seq<Byte>>, code: int)
    returns (ok: bool, bitmap: array<Byte>, ghost range: int)
    requires hbf.Ready() && code >= 0 && |files| == |hbf.codeRange|
    requires forall i | 0 <= i < |files| :: |files[i]| == hbf.codeRange[i].size
    ensures ok <==> exists i :: Fetchable(hbf, code, i)
    ensures ok ==> Fetchable(hbf, code, range) && fresh(bitmap)
    ensures ok ==>
      var r := hbf.codeRange[range]; var at := FileAt(hbf.byte2Range, hbf.width, hbf.height, r, code);
      && at + FileBytes(hbf.width, hbf.height, r.transposed) <= |files[range]|
      && Shows(hbf.width, hbf.height, files[range], at, r.transposed, r.inverted, bitmap[..])
  {
    hide Row, Sorted, HbfCodes.Has, Position, Shows, BitmapSize, FileBytes, FileAt, Offset;
    var width, height := hbf.width, hbf.height;
    bitmap := new Byte[0];
    var i, offset := hbf.GetBitmap(code);
    range := i;
    if i == -1 {
      return false, bitmap, range;
    }
    var cp, f := hbf.codeRange[i], files[i];
    PositionFrom(hbf.byte2Range, width, height, cp, code);
    OffsetIsFileAt(hbf.byte2Range, width, height, cp, code);
    BitmapSizeIs(width, height, cp.transposed);
    if offset < 0 {
      return false, bitmap, range;
    }
    if cp.transposed {
      var next;
      ok, bitmap, next := HbfTranspose.GetTransposed(width, height, f, offset);
      HeldHere(width, height, f, offset);
      TransposedIf(ok, width, height, f, offset, bitmap[..]);
    } else {
      ok, bitmap := ReadBlock(f, offset, BitmapSize(width, height, false));
      ReadShows(width, height, f, offset, bitmap[..]);
    }
    if cp.inverted {
      ghost var before := bitmap[..];
      Invert(bitmap);
      InvertedShows(width, height, f, offset, cp.transposed, before, bitmap[..]);
    }
    assert Fetchable(hbf, code, range);
  }

  lemma HeldHere(width: nat, height: nat, f: seq<Byte>, at: nat)
    ensures HbfTranspose.Held(width, height, f, at) <==> at + FileBytes(width, height, true) <= |f|
  {
  }

  lemma TransposedIf(ok: bool, width: nat, height: nat, f: seq<Byte>, at: nat, bitmap: seq<Byte>)
    requires ok ==> HbfTranspose.Transposed(width, height, f, at, bitmap)
    ensures ok ==> at + FileBytes(width, height, true) <= |f| && Shows(width, height, f, at, true, false, bitmap)
  {
    if ok { TransposedShows(width, height, f, at, bitmap); }
  }
}
