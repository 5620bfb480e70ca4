/** The partial-word mask tables of rasterops.c, for both byte orders. */
module Masks {
  import opened Bits

  // Whether MW_CPU_BIG_ENDIAN is set
  datatype Endian = Big | Little

  function LMask32Big(n: nat): string {
    match n
    case 0 => "00000000" case 1 => "80000000" case 2 => "c0000000" case 3 => "e0000000"
    case 4 => "f0000000" case 5 => "f8000000" case 6 => "fc000000" case 7 => "fe000000"
    case 8 => "ff000000" case 9 => "ff800000" case 10 => "ffc00000" case 11 => "ffe00000"
    case 12 => "fff00000" case 13 => "fff80000" case 14 => "fffc0000" case 15 => "fffe0000"
    case 16 => "ffff0000" case 17 => "ffff8000" case 18 => "ffffc000" case 19 => "ffffe000"
    case 20 => "fffff000" case 21 => "fffff800" case 22 => "fffffc00" case 23 => "fffffe00"
    case 24 => "ffffff00" case 25 => "ffffff80" case 26 => "ffffffc0" case 27 => "ffffffe0"
    case 28 => "fffffff0" case 29 => "fffffff8" case 30 => "fffffffc" case 31 => "fffffffe"
    case _ => "ffffffff"
  }

  function RMask32Big(n: nat): string {
    match n
    case 0 => "00000000" case 1 => "00000001" case 2 => "00000003" case 3 => "00000007"
    case 4 => "0000000f" case 5 => "0000001f" case 6 => "0000003f" case 7 => "0000007f"
    case 8 => "000000ff" case 9 => "000001ff" case 10 => "000003ff" case 11 => "000007ff"
    case 12 => "00000fff" case 13 => "00001fff" case 14 => "00003fff" case 15 => "00007fff"
    case 16 => "0000ffff" case 17 => "0001ffff" case 18 => "0003ffff" case 19 => "0007ffff"
    case 20 => "000fffff" case 21 => "001fffff" case 22 => "003fffff" case 23 => "007fffff"
    case 24 => "00ffffff" case 25 => "01ffffff" case 26 => "03ffffff" case 27 => "07ffffff"
    case 28 => "0fffffff" case 29 => "1fffffff" case 30 => "3fffffff" case 31 => "7fffffff"
    case _ => "ffffffff"
  }

  function LMask32Little(n: nat): string {
    match n
    case 0 => "00000000" case 1 => "00000080" case 2 => "000000c0" case 3 => "000000e0"
    case 4 => "000000f0" case 5 => "000000f8" case 6 => "000000fc" case 7 => "000000fe"
    case 8 => "000000ff" case 9 => "000080ff" case 10 => "0000c0ff" case 11 => "0000e0ff"
    case 12 => "0000f0ff" case 13 => "0000f8ff" case 14 => "0000fcff" case 15 => "0000feff"
    case 16 => "0000ffff" case 17 => "0080ffff" case 18 => "00c0ffff" case 19 => "00e0ffff"
    case 20 => "00f0ffff" case 21 => "00f8ffff" case 22 => "00fcffff" case 23 => "00feffff"
    case 24 => "00ffffff" case 25 => "80ffffff" case 26 => "c0ffffff" case 27 => "e0ffffff"
    case 28 => "f0ffffff" case 29 => "f8ffffff" case 30 => "fcffffff" case 31 => "feffffff"
    case _ => "ffffffff"
  }

  function RMask32Little(n: nat): string {
    match n
    case 0 => "00000000" case 1 => "01000000" case 2 => "03000000" case 3 => "07000000"
    case 4 => "0f000000" case 5 => "1f000000" case 6 => "3f000000" case 7 => "7f000000"
    case 8 => "ff000000" case 9 => "ff010000" case 10 => "ff030000" case 11 => "ff070000"
    case 12 => "ff0f0000" case 13 => "ff1f0000" case 14 => "ff3f0000" case 15 => "ff7f0000"
    case 16 => "ffff0000" case 17 => "ffff0100" case 18 => "ffff0300" case 19 => "ffff0700"
    case 20 => "ffff0f00" case 21 => "ffff1f00" case 22 => "ffff3f00" case 23 => "ffff7f00"
    case 24 => "ffffff00" case 25 => "ffffff01" case 26 => "ffffff03" case 27 => "ffffff07"
    case 28 => "ffffff0f" case 29 => "ffffff1f" case 30 => "ffffff3f" case 31 => "ffffff7f"
    case _ => "ffffffff"
  }


  // The bit of a word that shows pixel bit k, leftmost first: words are loaded from four
  // bytes in memory order, and each byte is shown most significant bit first
  function Pos(e: Endian, k: nat): (r: nat)
    requires k < 32
    ensures r < 32
  {
    match e
    case Big => k
    case Little => 24 - 8 * (k / 8) + k % 8
  }

  lemma PosInvolution(e: Endian, k: nat)
    requires k < 32
    ensures Pos(e, Pos(e, k)) == k
  {
  }

  // Pixel bit k of a word
  function Pix(e: Endian, w: Word, k: nat): bool
    requires k < 32
  {
    w[Pos(e, k)]
  }

  // The hex digit that holds pixel bits 4q to 4q+3
  function PosDigit(e: Endian, q: nat): (r: nat)
    requires q < 8
    ensures r < 8
  {
    if e.Big? then q else 6 - 2 * (q / 2) + q % 2
  }

  lemma PosSplit(e: Endian, k: nat)
    requires k < 32
    ensures Pos(e, k) / 4 == PosDigit(e, k / 4) && Pos(e, k) % 4 == k % 4
  {
  }

  function HexDigit(c: char): nat {
    if '0' <= c <= '9' then (c - '0') as nat
    else if 'a' <= c <= 'f' then (c - 'a') as nat + 10
    else 0
  }

  predicate DigitBit(c: char, j: nat)
    requires j < 4
  {
    (HexDigit(c) / (if j == 0 then 8 else if j == 1 then 4 else if j == 2 then 2 else 1)) % 2 == 1
  }

  function OfHex(s: string): Word
    requires |s| == 8
  {
    seq(32, k requires 0 <= k < 32 => DigitBit(s[k / 4], k % 4))
  }

  // lmask32[n] selects the n leftmost pixel bits of a word, rmask32[n] the n rightmost
  function LMask(e: Endian, n: nat): Word {
    seq(32, i requires 0 <= i < 32 => Pos(e, i) < n)
  }

  function RMask(e: Endian, n: nat): Word {
    seq(32, i requires 0 <= i < 32 => Pos(e, i) + n >= 32)
  }

  // A hex digit whose n leftmost (LDigit) or rightmost (RDigit) bits are set
  function LDigit(n: int): char {
    if n <= 0 then '0' else if n == 1 then '8' else if n == 2 then 'c' else if n == 3 then 'e' else 'f'
  }

  function RDigit(n: int): char {
    if n <= 0 then '0' else if n == 1 then '1' else if n == 2 then '3' else if n == 3 then '7' else 'f'
  }

  function LBig(n: int): string {
    [LDigit(n), LDigit(n - 4), LDigit(n - 8), LDigit(n - 12), LDigit(n - 16), LDigit(n - 20), LDigit(n - 24),
        LDigit(n - 28)]
  }

  function LLittle(n: int): string {
    [LDigit(n - 24), LDigit(n - 28), LDigit(n - 16), LDigit(n - 20), LDigit(n - 8), LDigit(n - 12), LDigit(n),
        LDigit(n - 4)]
  }

  function RBig(n: int): string {
    [RDigit(n - 28), RDigit(n - 24), RDigit(n - 20), RDigit(n - 16), RDigit(n - 12), RDigit(n - 8), RDigit(n - 4),
        RDigit(n)]
  }

  function RLittle(n: int): string {
    [RDigit(n - 4), RDigit(n), RDigit(n - 12), RDigit(n - 8), RDigit(n - 20), RDigit(n - 16), RDigit(n - 28),
        RDigit(n - 24)]
  }

  lemma LTableBig(n: nat)
    requires n <= 32
    ensures LMask32Big(n) == LBig(n)
  {
    match n {
      case 0 => case 1 => case 2 => case 3 => case 4 => case 5 => case 6 => case 7 =>
      case 8 => case 9 => case 10 => case 11 => case 12 => case 13 => case 14 => case 15 =>
      case 16 => case 17 => case 18 => case 19 => case 20 => case 21 => case 22 => case 23 =>
      case 24 => case 25 => case 26 => case 27 => case 28 => case 29 => case 30 => case 31 =>
      case 32 =>
    }
  }

  lemma LTableLittle(n: nat)
    requires n <= 32
    ensures LMask32Little(n) == LLittle(n)
  {
    match n {
      case 0 => case 1 => case 2 => case 3 => case 4 => case 5 => case 6 => case 7 =>
      case 8 => case 9 => case 10 => case 11 => case 12 => case 13 => case 14 => case 15 =>
      case 16 => case 17 => case 18 => case 19 => case 20 => case 21 => case 22 => case 23 =>
      case 24 => case 25 => case 26 => case 27 => case 28 => case 29 => case 30 => case 31 =>
      case 32 =>
    }
  }

  lemma RTableBig(n: nat)
    requires n <= 32
    ensures RMask32Big(n) == RBig(n)
  {
    match n {
      case 0 => case 1 => case 2 => case 3 => case 4 => case 5 => case 6 => case 7 =>
      case 8 => case 9 => case 10 => case 11 => case 12 => case 13 => case 14 => case 15 =>
      case 16 => case 17 => case 18 => case 19 => case 20 => case 21 => case 22 => case 23 =>
      case 24 => case 25 => case 26 => case 27 => case 28 => case 29 => case 30 => case 31 =>
      case 32 =>
    }
  }

  lemma RTableLittle(n: nat)
    requires n <= 32
    ensures RMask32Little(n) == RLittle(n)
  {
    match n {
      case 0 => case 1 => case 2 => case 3 => case 4 => case 5 => case 6 => case 7 =>
      case 8 => case 9 => case 10 => case 11 => case 12 => case 13 => case 14 => case 15 =>
      case 16 => case 17 => case 18 => case 19 => case 20 => case 21 => case 22 => case 23 =>
      case 24 => case 25 => case 26 => case 27 => case 28 => case 29 => case 30 => case 31 =>
      case 32 =>
    }
  }

  lemma LDigitBit(n: int, j: nat)
    requires j < 4
    ensures DigitBit(LDigit(n), j) == (j < n)
  {
  }

  lemma RDigitBit(n: int, j: nat)
    requires j < 4
    ensures DigitBit(RDigit(n), j) == (j >= 4 - n)
  {
  }

  lemma LHexDigit(e: Endian, n: nat, q: nat)
    requires q < 8
    ensures (if e.Big? then LBig(n) else LLittle(n))[PosDigit(e, q)] == LDigit(n - 4 * q)
  {
    if q == 0 {} else if q == 1 {} else if q == 2 {} else if q == 3 {}
    else if q == 4 {} else if q == 5 {} else if q == 6 {} else {}
  }

  lemma LHexBit(e: Endian, n: nat, k: nat)
    requires n <= 32 && k < 32
    ensures OfHex(if e.Big? then LBig(n) else LLittle(n))[Pos(e, k)] == (k < n)
  {
    LDigitBit(n - 4 * (k / 4), k % 4);
    LHexDigit(e, n, k / 4);
    PosSplit(e, k);
  }

  lemma RHexDigit(e: Endian, n: nat, q: nat)
    requires q < 8
    ensures (if e.Big? then RBig(n) else RLittle(n))[PosDigit(e, q)] == RDigit(n - 28 + 4 * q)
  {
    if q == 0 {} else if q == 1 {} else if q == 2 {} else if q == 3 {}
    else if q == 4 {} else if q == 5 {} else if q == 6 {} else {}
  }

  lemma RHexBit(e: Endian, n: nat, k: nat)
    requires n <= 32 && k < 32
    ensures OfHex(if e.Big? then RBig(n) else RLittle(n))[Pos(e, k)] == (k >= 32 - n)
  {
    RDigitBit(n - 28 + 4 * (k / 4), k % 4);
    RHexDigit(e, n, k / 4);
    PosSplit(e, k);
  }

  // The table constants are the masks, in both byte orders
  lemma LMaskTable(e: Endian, n: nat)
    requires n <= 32
    ensures OfHex(if e.Big? then LMask32Big(n) else LMask32Little(n)) == LMask(e, n)
  {
    LTableBig(n);
    LTableLittle(n);
    LHexMask(e, n);
  }

  lemma RMaskTable(e: Endian, n: nat)
    requires n <= 32
    ensures OfHex(if e.Big? then RMask32Big(n) else RMask32Little(n)) == RMask(e, n)
  {
    RTableBig(n);
    RTableLittle(n);
    RHexMask(e, n);
  }

  lemma LHexMask(e: Endian, n: nat)
    requires n <= 32
    ensures OfHex(if e.Big? then LBig(n) else LLittle(n)) == LMask(e, n)
  {
    var w := OfHex(if e.Big? then LBig(n) else LLittle(n));
    forall i | 0 <= i < 32 ensures w[i] == LMask(e, n)[i] {
      PosInvolution(e, i);
      LHexBit(e, n, Pos(e, i));
    }
  }

  lemma RHexMask(e: Endian, n: nat)
    requires n <= 32
    ensures OfHex(if e.Big? then RBig(n) else RLittle(n)) == RMask(e, n)
  {
    var w := OfHex(if e.Big? then RBig(n) else RLittle(n));
    forall i | 0 <= i < 32 ensures w[i] == RMask(e, n)[i] {
      PosInvolution(e, i);
      RHexBit(e, n, Pos(e, i));
    }
  }
}
