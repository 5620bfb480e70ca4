/** Raster operation codes: what fb.h computes per pixel, what rasterops.c computes per word,
    and the table between the two numberings. */
module Rops {
  import opened Bits

  const MWROP_COPY: nat := 0
  const MWROP_XOR: nat := 1
  const MWROP_OR: nat := 2
  const MWROP_AND: nat := 3
  const MWROP_CLEAR: nat := 4
  const MWROP_SET: nat := 5
  const MWROP_EQUIV: nat := 6
  const MWROP_NOR: nat := 7
  const MWROP_NAND: nat := 8
  const MWROP_INVERT: nat := 9
  const MWROP_COPYINVERTED: nat := 10
  const MWROP_ORINVERTED: nat := 11
  const MWROP_ANDINVERTED: nat := 12
  const MWROP_ORREVERSE: nat := 13
  const MWROP_ANDREVERSE: nat := 14
  const MWROP_NOOP: nat := 15
  const MWROP_XOR_FGBG: nat := 16
  const MWROP_SRC_OVER: nat := 17
  const MWROP_DST_OVER: nat := 18
  const MWROP_SRC_IN: nat := 19
  const MWROP_DST_IN: nat := 20
  const MWROP_SRC_OUT: nat := 21
  const MWROP_DST_OUT: nat := 22
  const MWROP_SRC_ATOP: nat := 23
  const MWROP_DST_ATOP: nat := 24
  const MWROP_PORTERDUFF_XOR: nat := 25
  const MWROP_SRCTRANSCOPY: nat := 26
  const MWROP_MAX: nat := 26
  const MWROP_SIMPLE_MAX: nat := 16

  /** APPLYOP of fb.h on one pixel of any width; `bg` is gr_background. */
  function ApplyOp(op: nat, s: Bits, d: Bits, bg: Bits): (r: Bits)
    requires |s| == |d| == |bg|
    ensures |r| == |d|
  {
    if op in {MWROP_COPY, MWROP_SRC_OVER, MWROP_SRC_IN, MWROP_SRC_ATOP} then s
    else if op in {MWROP_XOR_FGBG, MWROP_PORTERDUFF_XOR} then Xor(d, Xor(s, bg))
    else if op == MWROP_SRCTRANSCOPY then if d != Fill(|d|, false) then d else s
    else if op == MWROP_XOR then Xor(d, s)
    else if op == MWROP_AND then And(d, s)
    else if op == MWROP_OR then Or(d, s)
    else if op in {MWROP_SRC_OUT, MWROP_DST_OUT, MWROP_CLEAR} then Fill(|d|, false)
    else if op == MWROP_SET then Fill(|d|, true)
    else if op == MWROP_EQUIV then Not(Xor(d, s))
    else if op == MWROP_NOR then Not(Or(d, s))
    else if op == MWROP_NAND then Not(And(d, s))
    else if op == MWROP_INVERT then Not(d)
    else if op == MWROP_COPYINVERTED then Not(s)
    else if op == MWROP_ORINVERTED then Or(d, Not(s))
    else if op == MWROP_ANDINVERTED then And(d, Not(s))
    else if op == MWROP_ORREVERSE then Or(Not(d), s)
    else if op == MWROP_ANDREVERSE then And(Not(d), s)
    else d
  }

  // Every rop but SRCTRANSCOPY acts on each bit of a pixel by itself
  lemma ApplyOpPixel(op: nat, s: Bits, d: Bits, bg: Bits, k: int)
    requires op != MWROP_SRCTRANSCOPY && |s| == |d| == |bg| && 0 <= k < |d|
    ensures ApplyOp(op, s, d, bg)[k] == ApplyOp(op, [s[k]], [d[k]], [bg[k]])[0]
  {
  }

  /** applyOpR of fb.h, which returns the pixel instead of storing it; only fblin4.c uses it. */
  function ApplyOpR(op: nat, s: Bits, d: Bits, bg: Bits): (r: Bits)
    requires |s| == |d| == |bg|
    ensures |r| == |d|
  {
    if op == MWROP_XOR then Xor(s, d)
    else if op == MWROP_AND then And(s, d)
    else if op == MWROP_OR then Or(s, d)
    else if op in {MWROP_SRC_OUT, MWROP_DST_OUT, MWROP_PORTERDUFF_XOR, MWROP_CLEAR} then Fill(|d|, false)
    else if op == MWROP_SET then Fill(|d|, true)
    else if op == MWROP_EQUIV then Not(Xor(s, d))
    else if op == MWROP_NOR then Not(Or(s, d))
    else if op == MWROP_NAND then Not(And(s, d))
    else if op == MWROP_INVERT then Not(d)
    else if op == MWROP_COPYINVERTED then Not(s)
    else if op == MWROP_ORINVERTED then Or(Not(s), d)
    else if op == MWROP_ANDINVERTED then And(Not(s), d)
    else if op == MWROP_ORREVERSE then Or(s, Not(d))
    else if op == MWROP_ANDREVERSE then And(s, Not(d))
    else if op in {MWROP_SRC_OVER, MWROP_SRC_IN, MWROP_SRC_ATOP, MWROP_COPY} then s
    else if op == MWROP_XOR_FGBG then Xor(Xor(s, d), bg)
    else d
  }

  // The two forms of fb.h agree on every pixel but for two operations
  lemma ApplyOpRAgrees(op: nat)
    ensures (forall s: Byte, d: Byte, bg: Byte :: ApplyOpR(op, s, d, bg) == ApplyOp(op, s, d, bg))
      <==> op != MWROP_PORTERDUFF_XOR && op != MWROP_SRCTRANSCOPY
  {
    if op == MWROP_PORTERDUFF_XOR || op == MWROP_SRCTRANSCOPY {
      var none, all := Fill(8, false), Fill(8, true);
      assert ApplyOpR(op, all, none, none)[0] != ApplyOp(op, all, none, none)[0];
    } else {
      forall s: Byte, d: Byte, bg: Byte ensures ApplyOpR(op, s, d, bg) == ApplyOp(op, s, d, bg) {
        forall k | 0 <= k < 8 ensures ApplyOpR(op, s, d, bg)[k] == ApplyOp(op, s, d, bg)[k] {
        }
      }
    }
  }

  // On these two, the first form keeps pixels that are not zero and the second keeps or clears all
  lemma TwoOps(s: Bits, d: Bits, bg: Bits)
    requires |s| == |d| == |bg|
    ensures var r := ApplyOp(MWROP_SRCTRANSCOPY, s, d, bg);
      ((exists k | 0 <= k < |d| :: d[k]) ==> r == d) && ((forall k | 0 <= k < |d| :: !d[k]) ==> r == s)
    ensures forall k | 0 <= k < |d| :: ApplyOp(MWROP_PORTERDUFF_XOR, s, d, bg)[k] == (d[k] != (s[k] != bg[k]))
    ensures ApplyOpR(MWROP_SRCTRANSCOPY, s, d, bg) == d
    ensures forall k | 0 <= k < |d| :: !ApplyOpR(MWROP_PORTERDUFF_XOR, s, d, bg)[k]
  {
    if forall k | 0 <= k < |d| :: !d[k] {
      assert d == Fill(|d|, false);
    }
  }

  /** Operation flags of rasterops.c, with the values its header comment lists. */
  const PIX_SRC: nat := 0x18
  const PIX_SRC_XOR_DST: nat := 0x0c  // PIX_SRC ^ PIX_DST
  const PIX_SRC_OR_DST: nat := 0x1c  // PIX_SRC | PIX_DST
  const PIX_SRC_AND_DST: nat := 0x10  // PIX_SRC & PIX_DST
  const PIX_CLR: nat := 0x00
  const PIX_SET: nat := 0x1e
  const PIX_NOT_XOR: nat := 0x12  // PIX_NOT(PIX_SRC ^ PIX_DST)
  const PIX_NOT_OR: nat := 0x02  // PIX_NOT(PIX_SRC | PIX_DST)
  const PIX_NOT_AND: nat := 0x0e  // PIX_NOT(PIX_SRC & PIX_DST)
  const PIX_NOT_DST: nat := 0x0a  // PIX_NOT(PIX_DST)
  const PIX_NOT_SRC: nat := 0x06  // PIX_NOT(PIX_SRC)
  const PIX_NOTSRC_OR_DST: nat := 0x16  // PIX_NOT(PIX_SRC) | PIX_DST
  const PIX_NOTSRC_AND_DST: nat := 0x04  // PIX_NOT(PIX_SRC) & PIX_DST
  const PIX_SRC_OR_NOTDST: nat := 0x1a  // PIX_SRC | PIX_NOT(PIX_DST)
  const PIX_SRC_AND_NOTDST: nat := 0x08  // PIX_SRC & PIX_NOT(PIX_DST)
  const PIX_DST: nat := 0x14

  // raster_ops: the flag of each MWROP code
  const RASTER_OPS: seq<nat> := [
    PIX_SRC, PIX_SRC_XOR_DST, PIX_SRC_OR_DST, PIX_SRC_AND_DST,
    PIX_CLR, PIX_SET, PIX_NOT_XOR, PIX_NOT_OR,
    PIX_NOT_AND, PIX_NOT_DST, PIX_NOT_SRC, PIX_NOTSRC_OR_DST,
    PIX_NOTSRC_AND_DST, PIX_SRC_OR_NOTDST, PIX_SRC_AND_NOTDST, PIX_DST,
    PIX_SRC_XOR_DST, PIX_SRC, PIX_DST, PIX_SRC,
    PIX_DST, PIX_DST, PIX_SRC, PIX_SRC,
    PIX_DST, PIX_SRC_XOR_DST, PIX_SRC]

  /** The switch arms of the low-level routines: what each flag does to a word. */
  function PixOp(op: nat, s: Word, d: Word): Word {
    if op == PIX_CLR then Fill(32, false)
    else if op == PIX_SET then Fill(32, true)
    else if op == PIX_NOT_DST then Not(d)
    else if op == PIX_SRC then s
    else if op == PIX_NOT_SRC then Not(s)
    else if op == PIX_SRC_OR_DST then Or(s, d)
    else if op == PIX_SRC_AND_DST then And(s, d)
    else if op == PIX_SRC_XOR_DST then Xor(s, d)
    else if op == PIX_NOTSRC_OR_DST then Or(Not(s), d)
    else if op == PIX_NOTSRC_AND_DST then And(Not(s), d)
    else if op == PIX_SRC_OR_NOTDST then Or(s, Not(d))
    else if op == PIX_SRC_AND_NOTDST then And(s, Not(d))
    else if op == PIX_NOT_OR then Not(Or(s, d))
    else if op == PIX_NOT_AND then Not(And(s, d))
    else if op == PIX_NOT_XOR then Not(Xor(s, d))
    else d
  }

  // A flag read as a truth table: bits 4 to 1 give the result for (s, d) = 11, 10, 01, 00
  function TableBit(op: nat, s: bool, d: bool): bool {
    (op / (if s then (if d then 16 else 8) else (if d then 4 else 2))) % 2 == 1
  }

  // The switch has an arm for every flag, and the arm computes the flag's truth table
  lemma PixOpIsTable(op: nat, s: Word, d: Word)
    requires op < 32 && op % 2 == 0
    ensures forall k | 0 <= k < 32 :: PixOp(op, s, d)[k] == TableBit(op, s[k], d[k])
  {
    forall k | 0 <= k < 32 ensures PixOp(op, s, d)[k] == TableBit(op, s[k], d[k]) {
      PixOpBit(op, s, d, k);
    }
  }

  lemma PixOpBit(op: nat, s: Word, d: Word, k: nat)
    requires op < 32 && op % 2 == 0 && k < 32
    ensures PixOp(op, s, d)[k] == TableBit(op, s[k], d[k])
  {
  }

  // The rops that raster_ops and APPLYOP give the same meaning on one-bit pixels
  predicate SameRop(op: nat) {
    op !in {MWROP_XOR_FGBG, MWROP_SRC_OUT, MWROP_DST_OUT, MWROP_PORTERDUFF_XOR, MWROP_SRCTRANSCOPY}
  }

  // raster_ops draws the other five as XOR, as a copy or not at all
  lemma Substituted(op: nat)
    requires op <= MWROP_MAX
    ensures op in {MWROP_XOR_FGBG, MWROP_PORTERDUFF_XOR} ==> RASTER_OPS[op] == RASTER_OPS[MWROP_XOR]
    ensures op in {MWROP_DST_OUT, MWROP_SRCTRANSCOPY} ==> RASTER_OPS[op] == RASTER_OPS[MWROP_COPY]
    ensures op == MWROP_SRC_OUT ==> RASTER_OPS[op] == RASTER_OPS[MWROP_NOOP]
  {
  }

  lemma TableIgnoresSource(op: nat, a: bool, b: bool, d: bool)
    requires op in {PIX_CLR, PIX_SET, PIX_NOT_DST, PIX_DST}
    ensures TableBit(op, a, d) == TableBit(op, b, d)
  {
  }

  lemma SameRopAgrees(op: nat, s: bool, d: bool, bg: bool)
    requires op <= MWROP_MAX && SameRop(op)
    ensures TableBit(RASTER_OPS[op], s, d) == ApplyOp(op, [s], [d], [bg])[0]
  {
  }

  // What the other five do to a bit, and what APPLYOP would do
  lemma OtherRops(op: nat, s: bool, d: bool, bg: bool)
    requires op <= MWROP_MAX && !SameRop(op)
    ensures var raster, apply := TableBit(RASTER_OPS[op], s, d), ApplyOp(op, [s], [d], [bg])[0];
      && (op in {MWROP_XOR_FGBG, MWROP_PORTERDUFF_XOR} ==> raster == (s != d) && apply == (d != (s != bg)))
      && (op == MWROP_DST_OUT ==> raster == s && !apply)
      && (op == MWROP_SRCTRANSCOPY ==> raster == s && apply == (d || s))
      && (op == MWROP_SRC_OUT ==> raster == d && !apply)
  {
    assert [true][0] && !Fill(1, false)[0];
    assert Xor([s], [bg]) == [s != bg];
    assert [d] == Fill(1, false) <==> !d;
  }

  lemma OtherRopDiffers(op: nat)
    requires op <= MWROP_MAX && !SameRop(op)
    ensures exists s, d, bg :: TableBit(RASTER_OPS[op], s, d) != ApplyOp(op, [s], [d], [bg])[0]
  {
    assert [true][0] && !Fill(1, false)[0];
    var s, d, bg := op == MWROP_DST_OUT, op != MWROP_DST_OUT, op == MWROP_XOR_FGBG || op == MWROP_PORTERDUFF_XOR;
    assert RASTER_OPS[op] in {PIX_SRC_XOR_DST, PIX_SRC, PIX_DST};
    assert Xor([s], [bg]) == [s != bg];
    assert TableBit(RASTER_OPS[op], s, d) != ApplyOp(op, [s], [d], [bg])[0];
  }

  lemma RasterOpsMeaning(op: nat)
    requires op <= MWROP_MAX
    ensures (forall s, d, bg :: TableBit(RASTER_OPS[op], s, d) == ApplyOp(op, [s], [d], [bg])[0]) <==> SameRop(op)
  {
    if SameRop(op) {
      forall s, d, bg ensures TableBit(RASTER_OPS[op], s, d) == ApplyOp(op, [s], [d], [bg])[0] {
        SameRopAgrees(op, s, d, bg);
      }
    } else {
      OtherRopDiffers(op);
    }
  }
}
