/** HBF fonts (hbf.c): code ranges, the places of their bitmaps, and the enumeration of their codes. */
module Hbf {
  import opened Arithmetic
  import opened HbfCodes

  /** CODE_RANGE, with the size of its bitmap file. */
  datatype CodeRange = CodeRange(start: int, finish: int, size: int, offset: int, pos: int, transposed: bool,
                                 inverted: bool) {
    predicate Has(code: int) { start <= code <= finish }
  }

  // FileBitmapSize
  function BitmapSize(width: nat, height: nat, transposed: bool): nat {
    if transposed then (height + 7) / 8 * width else (width + 7) / 8 * height
  }

  // A code range that starts and ends with legal codes, is numbered from its start, and whose last bitmap
  // lies inside the file
  ghost predicate Sound(l: seq<Span>, width: nat, height: nat, r: CodeRange) {
    && 0 <= r.start <= r.finish <= 0xffff && LegalCode(l, r.start) && LegalCode(l, r.finish)
    && r.pos == Position(l, r.start)
    && r.offset + BitmapSize(width, height, r.transposed) * (Position(l, r.finish) - r.pos + 1) <= r.size
  }

  ghost predicate WellFormed(l: seq<Span>, width: nat, height: nat, codes: seq<CodeRange>) {
    && (forall i | 0 <= i < |codes| :: Sound(l, width, height, codes[i]))
    && (forall i, j | 0 <= i < j < |codes| :: codes[i].finish < codes[j].start)
  }

  /** What an HBF_CODE_RANGE line gives. */
  datatype Line = Line(start: int, finish: int, size: int, offset: int, transposed: bool, inverted: bool) {

    // What is stored for it: the codes as unsigned shorts
    function Stored(l: seq<Span>): CodeRange {
      CodeRange(start % 0x10000, finish % 0x10000, size, offset,
                if Has(l, SecondByte(start)) then Size(l) * FirstByte(start) + Pos(l, SecondByte(start)) else 0,
                transposed, inverted)
    }

    // The number of its bitmaps and the end of the last one, as too_short computes them
    function Count(l: seq<Span>): int
      requires Has(l, SecondByte(finish))
    {
      Size(l) * FirstByte(finish % 0x10000) + Pos(l, SecondByte(finish % 0x10000)) - Stored(l).pos + 1
    }

    function End(l: seq<Span>, width: nat, height: nat): int
      requires Has(l, SecondByte(finish))
    {
      offset + BitmapSize(width, height, transposed) * Count(l)
    }

    // The range is legal by itself
    predicate Legal(l: seq<Span>, width: nat, height: nat) {
      start <= finish && Has(l, SecondByte(start)) && Has(l, SecondByte(finish)) && End(l, width, height) <= size
    }

    // It starts with a 16-bit code and does not wrap around to before it
    predicate Unwrapped() {
      0 <= start <= 0xffff && start <= finish % 0x10000
    }
  }

  // The first range that does not end before `start`
  function Place(codes: seq<CodeRange>, start: int): (i: nat)
    ensures i <= |codes|
  {
    if codes != [] && codes[0].finish < start then 1 + Place(codes[1..], start) else 0
  }

  lemma {:induction false} PlaceSplits(codes: seq<CodeRange>, start: int)
    ensures forall i | 0 <= i < Place(codes, start) :: codes[i].finish < start
    ensures var i := Place(codes, start); i < |codes| ==> codes[i].finish >= start
  {
    if codes != [] && codes[0].finish < start {
      PlaceSplits(codes[1..], start);
      forall i | 0 <= i < Place(codes, start) ensures codes[i].finish < start {
        if i > 0 { assert codes[1..][i - 1] == codes[i]; }
      }
    }
  }

  predicate Overlaps(codes: seq<CodeRange>, line: Line) {
    var i := Place(codes, line.start);
    i < |codes| && codes[i].start <= line.finish
  }

  function Inserted(l: seq<Span>, codes: seq<CodeRange>, line: Line): seq<CodeRange> {
    var i := Place(codes, line.start);
    codes[..i] + [line.Stored(l)] + codes[i..]
  }

  // A range that does not overlap stays in the list even if it is rejected, then perhaps without a position
  ghost predicate LeftIn(l: seq<Span>, codes: seq<CodeRange>, line: Line, after: seq<CodeRange>) {
    var i := Place(codes, line.start);
    i < |after| && after == codes[..i] + [line.Stored(l).(pos := after[i].pos)] + codes[i..]
  }

  predicate Accepted(l: seq<Span>, width: nat, height: nat, codes: seq<CodeRange>, line: Line) {
    !Overlaps(codes, line) && line.Legal(l, width, height)
  }

  // The range has a code of one in the list
  ghost predicate Meets(codes: seq<CodeRange>, line: Line) {
    exists c :: InRanges(codes, c) && line.start <= c <= line.finish
  }

  // Looking at the first range that does not end before it is enough
  lemma OverlapsExactly(l: seq<Span>, width: nat, height: nat, codes: seq<CodeRange>, line: Line)
    requires WellFormed(l, width, height, codes) && line.start <= line.finish
    ensures Overlaps(codes, line) <==> Meets(codes, line)
  {
    hide Sound, Place;
    var i := Place(codes, line.start);
    PlaceSplits(codes, line.start);
    if Overlaps(codes, line) {
      SoundOrder(l, width, height, codes[i]);
      var c := if codes[i].start < line.start then line.start else codes[i].start;
      assert codes[i].Has(c);
      assert InRanges(codes, c);
    }
    if Meets(codes, line) {
      var c :| InRanges(codes, c) && line.start <= c <= line.finish;
      var m :| 0 <= m < |codes| && codes[m].Has(c);
      if i < m {
        SoundOrder(l, width, height, codes[i]);
      }
    }
  }

  // What is stored has the codes that were given just if they fit 16 bits
  lemma StoredAsGiven(l: seq<Span>, line: Line)
    requires line.start <= line.finish
    ensures var r := line.Stored(l);
      (forall c :: r.Has(c) <==> line.start <= c <= line.finish) <==> 0 <= line.start && line.finish <= 0xffff
  {
    var r := line.Stored(l);
    if forall c :: r.Has(c) <==> line.start <= c <= line.finish {
      assert r.Has(line.start) && r.Has(line.finish);
    }
  }

  // Positions tell codes with the same second byte apart
  lemma SamePosition(l: seq<Span>, start: int, p: int)
    requires Sorted(l) && Has(l, SecondByte(start)) && p == Pos(l, SecondByte(start))
    requires Size(l) * FirstByte(start) + p == Size(l) * FirstByte(start % 0x10000) + p
    ensures 0 <= start <= 0xffff
  {
    hide Has, Pos, Size;
    PosIn(l, SecondByte(start));
    var n, h, h' := Size(l), FirstByte(start), FirstByte(start % 0x10000);
    if h < h' { TimesNext(n, h, h'); }
    if h' < h { TimesNext(n, h', h); }
  }

  // A code and its low 16 bits have the same second byte
  lemma Low16(code: int)
    ensures SecondByte(code % 0x10000) == SecondByte(code)
  {
  }

  // A legal range is stored soundly just if it does not wrap around
  lemma StoredSound(l: seq<Span>, width: nat, height: nat, line: Line)
    requires Sorted(l) && line.Legal(l, width, height)
    ensures Sound(l, width, height, line.Stored(l)) <==> line.Unwrapped()
  {
    hide *;
    if line.Unwrapped() {
      UnwrappedSound(l, width, height, line);
    } else if Sound(l, width, height, line.Stored(l)) {
      SoundUnwrapped(l, width, height, line);
    }
  }

  lemma UnwrappedSound(l: seq<Span>, width: nat, height: nat, line: Line)
    requires line.Legal(l, width, height) && line.Unwrapped()
    ensures Sound(l, width, height, line.Stored(l))
  {
    hide Has, Pos, Size, BitmapSize, SecondByte;
    Low16(line.finish);
  }

  lemma SoundUnwrapped(l: seq<Span>, width: nat, height: nat, line: Line)
    requires Sorted(l) && line.Legal(l, width, height) && Sound(l, width, height, line.Stored(l))
    ensures line.Unwrapped()
  {
    hide Has, Pos, Size, Sorted, BitmapSize, SecondByte, FirstByte;
    Low16(line.start);
    SamePosition(l, line.start, Pos(l, SecondByte(line.start)));
  }

  // Putting a range between those that end before it and those that start after it
  lemma PutBetween(l: seq<Span>, width: nat, height: nat, codes: seq<CodeRange>, i: nat, r: CodeRange)
    requires WellFormed(l, width, height, codes) && Sound(l, width, height, r) && i <= |codes|
    requires forall k | 0 <= k < i :: codes[k].finish < r.start
    requires i < |codes| ==> r.finish < codes[i].start
    ensures WellFormed(l, width, height, codes[..i] + [r] + codes[i..])
  {
    hide Sound;
    var all := codes[..i] + [r] + codes[i..];
    forall k | 0 <= k < |all| ensures Sound(l, width, height, all[k]) {
    }
    forall k, m | 0 <= k < m < |all| ensures all[k].finish < all[m].start {
      assert k < i ==> all[k] == codes[k];
      assert m > i ==> all[m] == codes[m - 1];
      if k == i && m - 1 > i {
        SoundOrder(l, width, height, codes[i]);
        assert codes[i].finish < codes[m - 1].start;
      }
      if k < i == m || k < i < m { assert k < m - 1 ==> m > i ==> codes[k].finish < codes[m - 1].start; }
    }
  }

  lemma SoundOrder(l: seq<Span>, width: nat, height: nat, r: CodeRange)
    requires Sound(l, width, height, r)
    ensures r.start <= r.finish
  {
  }

  // An accepted range keeps the list in order, apart, correctly numbered and within the ends of the files just if it
  // does not wrap around
  lemma AcceptedKeeps(l: seq<Span>, width: nat, height: nat, codes: seq<CodeRange>, line: Line)
    requires Sorted(l) && WellFormed(l, width, height, codes) && Accepted(l, width, height, codes, line)
    ensures WellFormed(l, width, height, Inserted(l, codes, line)) <==> line.Unwrapped()
    ensures forall r :: r in Inserted(l, codes, line) <==> r in codes || r == line.Stored(l)
  {
    hide Sound, WellFormed, Sorted, Line.Legal, Line.Stored, Line.Unwrapped;
    var i, r := Place(codes, line.start), line.Stored(l);
    PlaceSplits(codes, line.start);
    StoredSound(l, width, height, line);
    LegalFacts(l, width, height, codes, line);
    if line.Unwrapped() {
      UnwrappedApart(l, width, height, codes, i, line);
      PutBetween(l, width, height, codes, i, r);
    } else {
      assert Inserted(l, codes, line)[i] == r;
      SoundAt(l, width, height, Inserted(l, codes, line), i);
    }
    assert codes == codes[..i] + codes[i..];
  }

  lemma LegalFacts(l: seq<Span>, width: nat, height: nat, codes: seq<CodeRange>, line: Line)
    requires Accepted(l, width, height, codes, line)
    ensures line.start <= line.finish
  {
  }

  lemma AcceptedMeans(l: seq<Span>, width: nat, height: nat, codes: seq<CodeRange>, line: Line)
    ensures WellFormed(l, width, height, codes) ==>
      Accepted(l, width, height, codes, line) == (line.Legal(l, width, height) && !Meets(codes, line))
  {
    hide Overlaps, Meets, WellFormed;
    if WellFormed(l, width, height, codes) && line.start <= line.finish {
      OverlapsExactly(l, width, height, codes, line);
    }
  }

  lemma SoundAt(l: seq<Span>, width: nat, height: nat, codes: seq<CodeRange>, i: nat)
    requires i < |codes|
    ensures WellFormed(l, width, height, codes) ==> Sound(l, width, height, codes[i])
  {
  }

  lemma UnwrappedApart(l: seq<Span>, width: nat, height: nat, codes: seq<CodeRange>, i: nat, line: Line)
    requires WellFormed(l, width, height, codes) && line.Unwrapped() && line.start <= line.finish
    requires i < |codes| ==> line.finish < codes[i].start
    ensures line.Stored(l).start == line.start
    ensures i < |codes| ==> line.Stored(l).finish < codes[i].start
  {
    if i < |codes| {
      SoundAt(l, width, height, codes, i);
    }
  }

  // A font in which every byte is a legal second byte
  const ALL: seq<Span> := [Span(0, 255)]

  lemma AllBytes(code: int)
    ensures Sorted(ALL) && Size(ALL) == 256 && Has(ALL, SecondByte(code))
        && Pos(ALL, SecondByte(code)) == SecondByte(code)
  {
    assert ALL[0].Size() == 256 && Size(ALL[1..]) == 0;
  }

  // What it accepts as its first range, and what becomes of that
  lemma FirstOfAll(line: Line)
    requires !line.transposed
    ensures Accepted(ALL, 8, 8, [], line) <==>
      line.start <= line.finish && line.offset + 8 * (line.finish % 0x10000 - line.start + 1) <= line.size
    ensures Accepted(ALL, 8, 8, [], line) ==>
      (WellFormed(ALL, 8, 8, Inserted(ALL, [], line)) <==> line.Unwrapped())
  {
    hide Has, Pos, Size, Sorted, Inserted, WellFormed;
    AllBytes(line.start);
    AllBytes(line.finish);
    assert SecondByte(line.finish % 0x10000) == SecondByte(line.finish);
    assert line.Count(ALL) == line.finish % 0x10000 - line.start + 1;
    if Accepted(ALL, 8, 8, [], line) {
      NoRanges(ALL, 8, 8);
      AcceptedKeeps(ALL, 8, 8, [], line);
    }
  }

  lemma NoRanges(l: seq<Span>, width: nat, height: nat)
    ensures WellFormed(l, width, height, [])
  {
  }

  // The checks miss what the truncation does: 0x10000-0x10000 is accepted with a position that is not its start's, and
  // 5-0x10003 is stored as an empty range; 3-0x10005 does no harm
  lemma TruncationMissed()
    ensures var far := Line(0x10000, 0x10000, 0, 0, false, false);
      Accepted(ALL, 8, 8, [], far) && !WellFormed(ALL, 8, 8, Inserted(ALL, [], far))
    ensures var empty := Line(5, 0x10003, 0, 0, false, false);
      Accepted(ALL, 8, 8, [], empty) && !WellFormed(ALL, 8, 8, Inserted(ALL, [], empty))
    ensures var wrapped := Line(3, 0x10005, 24, 0, false, false);
      Accepted(ALL, 8, 8, [], wrapped) && WellFormed(ALL, 8, 8, Inserted(ALL, [], wrapped))
  {
    hide Accepted, Inserted, WellFormed;
    FirstOfAll(Line(0x10000, 0x10000, 0, 0, false, false));
    FirstOfAll(Line(5, 0x10003, 0, 0, false, false));
    FirstOfAll(Line(3, 0x10005, 24, 0, false, false));
  }

  // The place of a code's bitmap in its file
  function Offset(l: seq<Span>, width: nat, height: nat, r: CodeRange, code: int): int
    requires LegalCode(l, code)
  {
    r.offset + (Position(l, code) - r.pos) * BitmapSize(width, height, r.transposed)
  }

  // One check at the finish code is enough: the bitmaps of all legal codes of a range lie between its offset and the
  // end of the file
  lemma BitmapsInFile(l: seq<Span>, width: nat, height: nat, r: CodeRange, code: int)
    requires Sorted(l) && Sound(l, width, height, r) && LegalCode(l, code) && r.Has(code)
    ensures r.offset <= Offset(l, width, height, r, code) && (r.offset >= 0 ==> 0 <= Offset(l, width, height, r, code))
    ensures Offset(l, width, height, r, code) + BitmapSize(width, height, r.transposed) <= r.size
  {
    hide Sorted, Position, BitmapSize, LegalCode;
    var s, k, n := BitmapSize(width, height, r.transposed), Position(l, code) - r.pos, Position(l, r.finish) - r.pos;
    if code > r.start { PositionMonotone(l, r.start, code); }
    if code < r.finish { PositionMonotone(l, code, r.finish); }
    PlaceWithin(s, k, n, r.offset, r.size);
  }

  // The bitmap of a code lies inside its file
  ghost predicate InFile(l: seq<Span>, width: nat, height: nat, r: CodeRange, code: int)
    requires LegalCode(l, code)
  {
    var p := Offset(l, width, height, r, code);
    0 <= p && p + BitmapSize(width, height, r.transposed) <= r.size
  }

  // They all lie inside the file just if the offset of the range is not negative, which is never checked
  lemma InFileExactly(l: seq<Span>, width: nat, height: nat, r: CodeRange)
    requires Sorted(l) && Sound(l, width, height, r)
    ensures (forall code | LegalCode(l, code) && r.Has(code) :: InFile(l, width, height, r, code)) <==> r.offset >= 0
  {
    hide Sorted, Position, BitmapSize, LegalCode;
    if r.offset >= 0 {
      forall code | LegalCode(l, code) && r.Has(code) ensures InFile(l, width, height, r, code) {
        BitmapsInFile(l, width, height, r, code);
      }
    } else {
      assert LegalCode(l, r.start) && r.Has(r.start);
      assert Offset(l, width, height, r, r.start) == r.offset;
      assert !InFile(l, width, height, r, r.start);
    }
  }

  // An accepted range whose first bitmap is eight bytes in front of the file
  lemma NegativeOffsetAccepted()
    ensures var line := Line(0, 0, 0, -8, false, false);
      && Accepted(ALL, 8, 8, [], line) && WellFormed(ALL, 8, 8, Inserted(ALL, [], line))
      && LegalCode(ALL, 0) && Offset(ALL, 8, 8, line.Stored(ALL), 0) == -8
  {
    hide Accepted, Inserted, WellFormed, Has, Pos, Size;
    FirstOfAll(Line(0, 0, 0, -8, false, false));
    AllBytes(0);
  }

  lemma PlaceWithin(s: int, k: int, n: int, offset: int, size: int)
    requires s >= 0 && 0 <= k <= n && offset + s * (n + 1) <= size
    ensures offset <= offset + k * s && offset + k * s + s <= size
  {
    TimesNext(s, k, n + 1);
  }

  lemma BitmapsApart(l: seq<Span>, width: nat, height: nat, r: CodeRange, code: int, code': int)
    requires Sorted(l) && LegalCode(l, code) && LegalCode(l, code') && code < code'
    ensures Offset(l, width, height, r, code) + BitmapSize(width, height, r.transposed)
      <= Offset(l, width, height, r, code')
  {
    var s := BitmapSize(width, height, r.transposed);
    PositionMonotone(l, code, code');
    TimesNext(s, Position(l, code) - r.pos, Position(l, code') - r.pos);
  }

  // The legal codes from s to f
  ghost function Codes(l: seq<Span>, s: int, f: int): seq<int>
    requires Sorted(l) && LegalCode(l, s) && LegalCode(l, f)
  {
    PosIn(l, SecondByte(s));
    var n := Position(l, f) - Position(l, s) + 1;
    seq(if n < 0 then 0 else n, k requires 0 <= k < n => CodeOf(l, Position(l, s) + k))
  }

  ghost predicate Ascending(w: seq<int>) {
    forall i, j | 0 <= i < j < |w| :: w[i] < w[j]
  }

  lemma {:induction false} AscendingUnique(v: seq<int>, w: seq<int>)
    requires Ascending(v) && Ascending(w) && forall c :: c in v <==> c in w
    ensures v == w
  {
    if v == [] {
      assert forall i | 0 <= i < |w| :: w[i] in w;
    } else {
      assert v[0] in w && w[0] in v;
      assert v[0] == w[0];
      forall c ensures c in v[1..] <==> c in w[1..] {
        assert c in v[1..] <==> c in v && c != v[0] by { AscendingTail(v, c); }
        assert c in w[1..] <==> c in w && c != w[0] by { AscendingTail(w, c); }
      }
      AscendingUnique(v[1..], w[1..]);
      assert v == [v[0]] + v[1..] && w == [w[0]] + w[1..];
    }
  }

  lemma AscendingTail(w: seq<int>, c: int)
    requires Ascending(w) && w != []
    ensures c in w[1..] <==> c in w && c != w[0]
  {
    assert w == [w[0]] + w[1..];
  }

  // The legal codes in [s, f] below t, in order
  ghost predicate UpTo(l: seq<Span>, s: int, f: int, t: int, w: seq<int>) {
    Ascending(w) && forall c :: c in w <==> (LegalCode(l, c) && s <= c <= f && c < t)
  }

  // Codes lists exactly the legal codes of its range, in order
  lemma CodesAreLegal(l: seq<Span>, s: int, f: int)
    requires Sorted(l) && LegalCode(l, s) && LegalCode(l, f) && s <= f
    ensures UpTo(l, s, f, f + 1, Codes(l, s, f))
    ensures |Codes(l, s, f)| == Position(l, f) - Position(l, s) + 1
  {
    var w, p, q := Codes(l, s, f), Position(l, s), Position(l, f);
    PositionInverse(l, s);
    PositionMonotone(l, f, s);
    forall i, j | 0 <= i < j < |w| ensures w[i] < w[j] {
      CodeOfInverse(l, p + i);
      CodeOfInverse(l, p + j);
      PositionMonotone(l, w[i], w[j]);
    }
    forall c ensures c in w <==> (LegalCode(l, c) && s <= c <= f && c < f + 1) {
      if c in w {
        var i :| 0 <= i < |w| && w[i] == c;
        CodeOfInverse(l, p + i);
        PositionMonotone(l, c, s);
        PositionMonotone(l, f, c);
      }
      if LegalCode(l, c) && s <= c <= f {
        PositionInverse(l, c);
        PositionMonotone(l, c, s);
        PositionMonotone(l, f, c);
        assert w[Position(l, c) - p] == c;
      }
    }
  }

  // The codes of all ranges
  ghost function AllCodes(l: seq<Span>, codes: seq<CodeRange>): seq<int>
    requires Sorted(l) && forall i | 0 <= i < |codes| :: LegalCode(l, codes[i].start) && LegalCode(l, codes[i].finish)
  {
    if codes == [] then []
    else AllCodes(l, codes[..|codes| - 1]) + Codes(l, codes[|codes| - 1].start, codes[|codes| - 1].finish)
  }

  ghost predicate InRanges(codes: seq<CodeRange>, c: int) {
    exists i | 0 <= i < |codes| :: codes[i].Has(c)
  }

  lemma InRangesSplit(codes: seq<CodeRange>, c: int)
    requires codes != []
    ensures InRanges(codes, c) <==> InRanges(codes[..|codes| - 1], c) || codes[|codes| - 1].Has(c)
  {
    var front := codes[..|codes| - 1];
    if InRanges(front, c) {
      var i :| 0 <= i < |front| && front[i].Has(c);
      assert codes[i].Has(c);
    }
    if InRanges(codes, c) {
      var i :| 0 <= i < |codes| && codes[i].Has(c);
      assert i < |front| ==> front[i].Has(c);
    }
  }

  lemma NothingAscends()
    ensures Ascending([]) && forall c :: !InRanges([], c)
  {
  }

  // They are exactly the legal codes of the ranges, once each and in ascending order
  lemma {:induction false} AllCodesAscend(l: seq<Span>, width: nat, height: nat, codes: seq<CodeRange>)
    requires Sorted(l) && WellFormed(l, width, height, codes)
    ensures Ascending(AllCodes(l, codes))
    ensures forall c :: c in AllCodes(l, codes) <==> LegalCode(l, c) && InRanges(codes, c)
  {
    hide Ascending, InRanges, Codes, Position, LegalCode, Sorted, BitmapSize;
    if codes == [] {
      NothingAscends();
    } else {
      var front, last := codes[..|codes| - 1], codes[|codes| - 1];
      AllCodesAscend(l, width, height, front);
      assert Sound(l, width, height, last);
      AllCodesNext(l, front, last, codes) by {
        forall i | 0 <= i < |front| ensures front[i].finish < last.start {
          assert codes[i].finish < codes[|codes| - 1].start;
        }
      }
    }
  }

  lemma AllCodesNext(l: seq<Span>, front: seq<CodeRange>, last: CodeRange, codes: seq<CodeRange>)
    requires Sorted(l) && LegalCode(l, last.start) && LegalCode(l, last.finish) && last.start <= last.finish
        && codes == front + [last]
    requires forall i | 0 <= i < |front| ::
      LegalCode(l, front[i].start) && LegalCode(l, front[i].finish) && front[i].finish < last.start
    requires Ascending(AllCodes(l, front)) && forall c ::
      c in AllCodes(l, front) <==> LegalCode(l, c) && InRanges(front, c)
    ensures Ascending(AllCodes(l, front) + Codes(l, last.start, last.finish))
    ensures forall c ::
      c in AllCodes(l, front) + Codes(l, last.start, last.finish) <==> LegalCode(l, c) && InRanges(codes, c)
  {
    hide Sorted, LegalCode, Codes, AllCodes;
    var v, w := AllCodes(l, front), Codes(l, last.start, last.finish);
    CodesAreLegal(l, last.start, last.finish);
    Joined(v, w, last.start);
    forall c ensures c in v + w <==> LegalCode(l, c) && InRanges(codes, c) {
      InRangesSplit(codes, c);
      assert codes[..|codes| - 1] == front;
    }
  }

  lemma Joined(v: seq<int>, w: seq<int>, s: int)
    requires Ascending(v) && Ascending(w) && (forall c | c in v :: c < s) && (forall c | c in w :: s <= c)
    ensures Ascending(v + w)
  {
    forall i | 0 <= i < |v| ensures v[i] < s { assert v[i] in v; }
    forall i | 0 <= i < |w| ensures s <= w[i] { assert w[i] in w; }
  }

  // Appending the next legal code
  lemma UpToNext(l: seq<Span>, s: int, f: int, c: int, w: seq<int>)
    requires UpTo(l, s, f, c, w) && LegalCode(l, c) && s <= c <= f
    ensures UpTo(l, s, f, c + 1, w + [c])
  {
    forall i | 0 <= i < |w| ensures w[i] < c { assert w[i] in w; }
  }

  // Skipping second bytes b to b' that no range has
  lemma UpToSkip(l: seq<Span>, s: int, f: int, byte1: int, b: int, b': int, w: seq<int>)
    requires UpTo(l, s, f, 256 * byte1 + b, w) && 0 <= b <= b' <= 256
    requires forall c | b <= c < b' && Has(l, c) :: 256 * byte1 + c > f
    ensures UpTo(l, s, f, 256 * byte1 + b', w)
  {
    hide Ascending, HbfCodes.Has;
    forall c | 256 * byte1 + b <= c < 256 * byte1 + b' ensures !(LegalCode(l, c) && s <= c <= f) {
      assert SecondByte(c) == c - 256 * byte1;
    }
  }

  // What the loop over the ranges knows in front of range i: the ranges before it are used up
  ghost predicate UsedUp(l: seq<Span>, i: int, byte1: int, byte2: int, f: int) {
    256 * byte1 + byte2 > f || forall j | 0 <= j < i && j < |l| :: l[j].finish < byte2
  }

  lemma NothingBetween(l: seq<Span>, i: int, byte1: int, b: int, b': int, f: int)
    requires Sorted(l) && 0 <= i <= |l| && UsedUp(l, i, byte1, b, f) && b <= b' && (i < |l| ==> b' <= l[i].start)
    ensures forall c | b <= c < b' && Has(l, c) :: 256 * byte1 + c > f
  {
    forall c | b <= c < b' && Has(l, c) ensures 256 * byte1 + c > f {
      HasWhere(l, c);
      var j :| 0 <= j < |l| && l[j].Has(c);
      if j > i { assert l[i].finish < l[j].start; }
    }
  }

  /** HBF_STRUCT: an open font. */
  class HbfStruct {
    const width: nat   // of the bitmap bounding box, which get_bbox checks
    const height: nat
    var byte2Range: seq<Span>
    var b2Size: int
    var codeRange: seq<CodeRange>

    constructor (width: nat, height: nat)
      requires width > 0 && height > 0
      ensures this.width == width && this.height == height && byte2Range == [] && codeRange == [] && b2Size == 0
    {
      this.width, this.height, byte2Range, codeRange, b2Size := width, height, [], [], 0;
    }

    // The byte-2 ranges have been read; code ranges may follow
    ghost predicate Ready()
      reads this
    {
      && width > 0 && height > 0 && Sorted(byte2Range) && b2Size == Size(byte2Range)
      && WellFormed(byte2Range, width, height, codeRange)
    }

    /** add_b2r */
    method AddB2r(start: int, finish: int)
      modifies this`byte2Range
      ensures byte2Range == HbfCodes.Added(old(byte2Range), start, finish)
    {
      hide *;
      var i := 0;
      while i < |byte2Range| && byte2Range[i].start < start
        invariant 0 <= i <= |byte2Range| && byte2Range == old(byte2Range)
        invariant forall k | 0 <= k < i :: byte2Range[k].start < start
      {
        i := i + 1;
      }
      AddedAt(byte2Range, start, finish, i);
      byte2Range := byte2Range[..i] + [Span(start % 256, finish % 256)] + byte2Range[i..];
    }

    /** b2_size */
    method CountB2() returns (size: int)
      ensures size == Size(byte2Range)
    {
      size := 0;
      var i := 0;
      while i < |byte2Range|
        invariant 0 <= i <= |byte2Range| && size + Size(byte2Range[i..]) == Size(byte2Range)
      {
        assert byte2Range[i..][1..] == byte2Range[i + 1..];
        size := size + byte2Range[i].finish - byte2Range[i].start + 1;
        i := i + 1;
      }
    }

    /** b2_pos */
    method B2Pos(code: int) returns (pos: int)
      ensures pos ==
        if HbfCodes.Has(byte2Range, SecondByte(code)) then Pos(byte2Range, SecondByte(code)) else BAD_CHAR_INDEX
    {
      var c, i := SecondByte(code), 0;
      pos := 0;
      while i < |byte2Range|
        invariant 0 <= i <= |byte2Range| && HbfCodes.Has(byte2Range[i..], c) == HbfCodes.Has(byte2Range, c)
        invariant HbfCodes.Has(byte2Range, c) ==> pos + Pos(byte2Range[i..], c) == Pos(byte2Range, c)
      {
        assert byte2Range[i..][1..] == byte2Range[i + 1..];
        if byte2Range[i].start <= c <= byte2Range[i].finish {
          return pos + c - byte2Range[i].start;
        }
        pos := pos + byte2Range[i].finish - byte2Range[i].start + 1;
        i := i + 1;
      }
      return BAD_CHAR_INDEX;
    }

    /** code_of */
    method FindCode(pos: int) returns (code: int)
      requires b2Size == Size(byte2Range) > 0 && Sorted(byte2Range) && pos >= 0
      ensures code == CodeOf(byte2Range, pos)
    {
      var high, residue, i := pos / b2Size * 256, pos % b2Size, 0;
      while i < |byte2Range|
        invariant 0 <= i <= |byte2Range| && At(byte2Range[i..], residue) == At(byte2Range, pos % b2Size)
        invariant 0 <= residue < Size(byte2Range[i..])
      {
        assert byte2Range[i..][1..] == byte2Range[i + 1..];
        if byte2Range[i].start + residue <= byte2Range[i].finish {
          return high + byte2Range[i].start + residue;
        }
        residue := residue - (byte2Range[i].finish - byte2Range[i].start + 1);
        i := i + 1;
      }
      return 0;
    }

    /** too_short */
    method TooShort(cp: CodeRange, ghost line: Line) returns (short: bool)
      requires Sorted(byte2Range) && b2Size == Size(byte2Range) && HbfCodes.Has(byte2Range, SecondByte(line.finish))
          && cp == line.Stored(byte2Range)
      ensures short == (line.End(byte2Range, width, height) > line.size)
    {
      hide *;
      var bmSize := BitmapSize(width, height, cp.transposed);
      var p := B2Pos(cp.finish);
      var endOffset := cp.offset + bmSize * (b2Size * FirstByte(cp.finish) + p - cp.pos + 1);
      short := endOffset > cp.size;
      EndIs(byte2Range, width, height, cp, line, bmSize, b2Size, p, endOffset);
    }

    /** add_code_range */
    method AddCodeRange(line: Line) returns (ok: bool)
      requires Sorted(byte2Range) && b2Size == Size(byte2Range)
      modifies this`codeRange
      ensures ok == Accepted(byte2Range, width, height, old(codeRange), line)
      ensures old(Ready()) ==> ok == (line.Legal(byte2Range, width, height) && !Meets(old(codeRange), line))
      ensures ok ==> codeRange == Inserted(byte2Range, old(codeRange), line)
      ensures Overlaps(old(codeRange), line) ==> codeRange == old(codeRange)
      ensures !Overlaps(old(codeRange), line) ==> LeftIn(byte2Range, old(codeRange), line, codeRange)
      ensures ok && old(Ready()) ==> (Ready() <==> line.Unwrapped())
    {
      hide HbfCodes.Has, Pos, Size, Sorted, Meets, Line.End, Place, WellFormed, Line.Unwrapped;
      AcceptedMeans(byte2Range, width, height, codeRange, line);
      var i := FindPlace(line.start);
      if i < |codeRange| && codeRange[i].start <= line.finish {
        return false;
      }
      var unset: int := *;
      var cp := CodeRange(line.start % 0x10000, line.finish % 0x10000, line.size, line.offset, unset, line.transposed,
          line.inverted);
      codeRange := codeRange[..i] + [cp] + codeRange[i..];
      if line.start > line.finish {
        return false;
      }
      var b2pos := B2Pos(line.start);
      PosSmall(byte2Range, line.start);
      PosSmall(byte2Range, line.finish);
      if b2pos == BAD_CHAR_INDEX {
        return false;
      }
      cp := cp.(pos := b2Size * FirstByte(line.start) + b2pos);
      codeRange := codeRange[i := cp];
      b2pos := B2Pos(line.finish);
      if b2pos == BAD_CHAR_INDEX {
        return false;
      }
      var short := TooShort(cp, line);
      if !short && old(Ready()) {
        AcceptedKeeps(byte2Range, width, height, old(codeRange), line);
      }
      return !short;
    }

    method FindPlace(start: int) returns (i: nat)
      ensures i == Place(codeRange, start)
    {
      i := 0;
      while i < |codeRange| && codeRange[i].finish < start
        invariant i <= |codeRange| && Place(codeRange, start) == i + Place(codeRange[i..], start)
      {
        assert codeRange[i..][1..] == codeRange[i + 1..];
        i := i + 1;
      }
    }

    /** get_bitmap: which range has the code, and where in its file the bitmap is; -1 if no range has it */
    method GetBitmap(code: int) returns (range: int, offset: int)
      requires Ready() && code >= 0
      ensures range == -1 || 0 <= range < |codeRange|
      ensures range == -1 <==> !(LegalCode(byte2Range, code) && InRanges(codeRange, code))
      ensures range >= 0 ==> codeRange[range].Has(code)
      ensures range >= 0 ==> offset == Offset(byte2Range, width, height, codeRange[range], code)
      ensures range >= 0 ==> codeRange[range].offset <= offset
      ensures range >= 0 && codeRange[range].offset >= 0 ==> InFile(byte2Range, width, height, codeRange[range], code)
      ensures range >= 0 ==> offset + BitmapSize(width, height, codeRange[range].transposed) <= codeRange[range].size
    {
      var b2pos := B2Pos(code);
      PosSmall(byte2Range, code);
      if b2pos == BAD_CHAR_INDEX {
        return -1, 0;
      }
      var pos, i := b2Size * FirstByte(code) + b2pos, 0;
      while i < |codeRange|
        invariant 0 <= i <= |codeRange| && forall j | 0 <= j < i :: !codeRange[j].Has(code)
      {
        var cp := codeRange[i];
        if cp.start <= code <= cp.finish {
          var bmSize := BitmapSize(width, height, cp.transposed);
          BitmapsInFile(byte2Range, width, height, cp, code);
          assert cp.Has(code);
          return i, cp.offset + (pos - cp.pos) * bmSize;
        }
        i := i + 1;
      }
      return -1, 0;
    }

    /** hbfForEach: the codes in the order in which the function is called on them */
    method ForEach() returns (visited: seq<int>)
      requires Ready()
      ensures visited == AllCodes(byte2Range, codeRange)
    {
      visited := [];
      var i := 0;
      assert codeRange[..0] == [];
      while i < |codeRange|
        invariant 0 <= i <= |codeRange| && visited == AllCodes(byte2Range, codeRange[..i])
      {
        assert codeRange[..i + 1][..i] == codeRange[..i];
        visited := ForEachIn(codeRange[i], visited);
        i := i + 1;
      }
      assert codeRange[..|codeRange|] == codeRange;
    }

    // The codes of one range, after those visited before
    method ForEachIn(cp: CodeRange, before: seq<int>) returns (visited: seq<int>)
      requires Sorted(byte2Range) && 0 <= cp.start <= cp.finish && LegalCode(byte2Range, cp.start)
          && LegalCode(byte2Range, cp.finish)
      ensures visited == before + Codes(byte2Range, cp.start, cp.finish)
    {
      hide Sorted, HbfCodes.Has, UpTo, UsedUp, Codes, Ascending;
      var byte1, byte2 := FirstByte(cp.start), SecondByte(cp.start);
      ghost var w: seq<int> := [];
      visited := before;
      NoneYet(byte2Range, cp.start, cp.finish);
      while byte1 * 256 + byte2 <= cp.finish
        invariant 0 <= byte1 && 0 <= byte2 <= 255 && (byte2 == 0 || cp.start == 256 * byte1 + byte2)
        invariant visited == before + w && UpTo(byte2Range, cp.start, cp.finish, 256 * byte1 + byte2, w)
            && cp.start <= 256 * byte1 + byte2
        decreases cp.finish + 256 - 256 * byte1
      {
        w, visited := ForEachRow(cp, byte1, byte2, before, w, visited);
        byte1 := byte1 + 1;
        byte2 := 0;
      }
      AllVisited(byte2Range, cp.start, cp.finish, 256 * byte1 + byte2, w);
    }

    // The codes of one first byte, from byte2 on
    method ForEachRow(cp: CodeRange, byte1: int, from: int, ghost before: seq<int>, ghost w0: seq<int>,
                      visited0: seq<int>)
      returns (ghost w: seq<int>, visited: seq<int>)
      requires Sorted(byte2Range) && 0 <= cp.start <= 256 * byte1 + from <= cp.finish && 0 <= byte1 && 0 <= from <= 255
      requires visited0 == before + w0 && UpTo(byte2Range, cp.start, cp.finish, 256 * byte1 + from, w0)
      ensures visited == before + w && UpTo(byte2Range, cp.start, cp.finish, 256 * (byte1 + 1), w)
    {
      hide Sorted, HbfCodes.Has, UpTo, UsedUp, Ascending;
      var byte2, i := from, 0;
      w, visited := w0, visited0;
      UsedNone(byte2Range, byte1, byte2, cp.finish);
      while i < |byte2Range|
        invariant 0 <= i <= |byte2Range| && from <= byte2 <= 256 && visited == before + w
        invariant UpTo(byte2Range, cp.start, cp.finish, 256 * byte1 + byte2, w)
        invariant UsedUp(byte2Range, i, byte1, byte2, cp.finish)
      {
        var b2r := byte2Range[i];
        ghost var b := byte2;
        SpanIn(byte2Range, i);
        if byte2 < b2r.start {
          NothingBetween(byte2Range, i, byte1, byte2, b2r.start, cp.finish);
          UpToSkip(byte2Range, cp.start, cp.finish, byte1, byte2, b2r.start, w);
          byte2 := b2r.start;
        }
        var finish := b2r.finish;
        if byte1 == FirstByte(cp.finish) && finish > SecondByte(cp.finish) {
          finish := SecondByte(cp.finish);
        }
        while byte2 <= finish
          invariant b <= byte2 <= 256 && b2r.start <= byte2 && visited == before + w
          invariant UpTo(byte2Range, cp.start, cp.finish, 256 * byte1 + byte2, w)
        {
          SpanHas(byte2Range, i, byte1, byte2);
          UpToNext(byte2Range, cp.start, cp.finish, byte1 * 256 + byte2, w);
          w := w + [byte1 * 256 + byte2];
          visited := visited + [byte1 * 256 + byte2];
          byte2 := byte2 + 1;
        }
        UsedNext(byte2Range, i, byte1, b, byte2, cp.finish);
        i := i + 1;
      }
      NothingBetween(byte2Range, i, byte1, byte2, 256, cp.finish);
      UpToSkip(byte2Range, cp.start, cp.finish, byte1, byte2, 256, w);
    }

    /** hbfChars */
    method Chars() returns (numChars: int)
      requires Ready()
      ensures numChars == |AllCodes(byte2Range, codeRange)|
    {
      numChars := 0;
      var i := 0;
      assert codeRange[..0] == [];
      while i < |codeRange|
        invariant 0 <= i <= |codeRange| && numChars == |AllCodes(byte2Range, codeRange[..i])|
      {
        var cp := codeRange[i];
        assert Sound(byte2Range, width, height, cp);
        assert codeRange[..i + 1][..i] == codeRange[..i];
        CodesAreLegal(byte2Range, cp.start, cp.finish);
        var finish := B2Pos(cp.finish);
        var start := B2Pos(cp.start);
        numChars := numChars + (b2Size * FirstByte(cp.finish) + finish - (b2Size * FirstByte(cp.start) + start) + 1);
        i := i + 1;
      }
      assert codeRange[..|codeRange|] == codeRange;
    }
  }

  lemma NoneYet(l: seq<Span>, s: int, f: int)
    ensures UpTo(l, s, f, s, [])
  {
  }

  lemma AllVisited(l: seq<Span>, s: int, f: int, t: int, w: seq<int>)
    requires Sorted(l) && LegalCode(l, s) && LegalCode(l, f) && s <= f < t && UpTo(l, s, f, t, w)
    ensures w == Codes(l, s, f)
  {
    CodesAreLegal(l, s, f);
    AscendingUnique(w, Codes(l, s, f));
  }

  lemma UsedNone(l: seq<Span>, byte1: int, byte2: int, f: int)
    ensures UsedUp(l, 0, byte1, byte2, f)
  {
  }

  lemma SpanIn(l: seq<Span>, i: int)
    requires Sorted(l) && 0 <= i < |l|
    ensures 0 <= l[i].start <= l[i].finish <= 255
  {
  }

  lemma SpanHas(l: seq<Span>, i: int, byte1: int, c: int)
    requires 0 <= byte1 && 0 <= i < |l| && l[i].start <= c <= l[i].finish && 0 <= c <= 255
    ensures LegalCode(l, byte1 * 256 + c)
  {
    MakeCode(byte1, c);
    assert l[i].Has(c);
    HasWhere(l, c);
  }

  // Having gone through range i as far as the last code allows
  lemma UsedNext(l: seq<Span>, i: int, byte1: int, b: int, byte2: int, f: int)
    requires Sorted(l) && 0 <= i < |l| && UsedUp(l, i, byte1, b, f) && b <= byte2
    requires byte2 > l[i].finish || (byte1 == FirstByte(f) && byte2 > SecondByte(f))
    ensures UsedUp(l, i + 1, byte1, byte2, f)
  {
  }

  lemma EndIs(l: seq<Span>, width: nat, height: nat, cp: CodeRange, line: Line, bmSize: int, size: int, p: int,
              end: int)
    requires HbfCodes.Has(l, SecondByte(line.finish)) && cp == line.Stored(l)
    requires bmSize == BitmapSize(width, height, cp.transposed) && size == Size(l)
    requires p == if HbfCodes.Has(l, SecondByte(cp.finish)) then Pos(l, SecondByte(cp.finish)) else BAD_CHAR_INDEX
    requires end == cp.offset + bmSize * (size * FirstByte(cp.finish) + p - cp.pos + 1)
    ensures end == line.End(l, width, height) && cp.size == line.size
  {
    hide HbfCodes.Has, Pos, Size, BitmapSize, FirstByte;
    assert SecondByte(cp.finish) == SecondByte(line.finish);
  }

  const BAD_CHAR_INDEX: int := 0xffff

  lemma PosSmall(l: seq<Span>, code: int)
    requires Sorted(l)
    ensures HbfCodes.Has(l, SecondByte(code)) ==> Pos(l, SecondByte(code)) < BAD_CHAR_INDEX
  {
    if HbfCodes.Has(l, SecondByte(code)) {
      PosIn(l, SecondByte(code));
      SizeSmall(l);
    }
  }
}
