/** The numbering of the two-byte codes of an HBF font (hbf.c): code_of is its inverse. */
module HbfCodes {
  import opened Arithmetic

  /** B2_RANGE: a range of legal second bytes. */
  datatype Span = Span(start: int, finish: int) {
    predicate Has(c: int) { start <= c <= finish }
    function Size(): int { finish - start + 1 }
  }

  // The lists that add_b2r builds from well-formed ranges that are pairwise apart
  ghost predicate Sorted(l: seq<Span>) {
    && (forall i | 0 <= i < |l| :: 0 <= l[i].start <= l[i].finish <= 255)
    && (forall i, j | 0 <= i < j < |l| :: l[i].finish < l[j].start)
  }

  predicate Has(l: seq<Span>, c: int) {
    l != [] && (l[0].Has(c) || Has(l[1..], c))
  }

  lemma {:induction false} HasWhere(l: seq<Span>, c: int)
    ensures Has(l, c) <==> exists i | 0 <= i < |l| :: l[i].Has(c)
  {
    if l != [] {
      HasWhere(l[1..], c);
      if Has(l[1..], c) {
        var i :| 0 <= i < |l[1..]| && l[1..][i].Has(c);
        assert l[i + 1].Has(c);
      } else if exists i | 0 <= i < |l| :: l[i].Has(c) {
        var i :| 0 <= i < |l| && l[i].Has(c);
        assert i > 0 ==> l[1..][i - 1].Has(c);
      }
    }
  }

  // How many second bytes there are, how many before c, and which one is number k
  function Size(l: seq<Span>): int {
    if l == [] then 0 else l[0].Size() + Size(l[1..])
  }

  function Pos(l: seq<Span>, c: int): int
    requires Has(l, c)
  {
    if l[0].Has(c) then c - l[0].start else l[0].Size() + Pos(l[1..], c)
  }

  function At(l: seq<Span>, k: int): int {
    if l == [] then 0
    else if l[0].start + k <= l[0].finish then l[0].start + k
    else At(l[1..], k - l[0].Size())
  }

  lemma {:induction false} PosIn(l: seq<Span>, c: int)
    requires Sorted(l) && Has(l, c)
    ensures 0 <= Pos(l, c) < Size(l) && At(l, Pos(l, c)) == c && 0 <= c <= 255
  {
    SizeNatural(l[1..]);
    if !l[0].Has(c) {
      PosIn(l[1..], c);
    }
  }

  lemma {:induction false} SizeNatural(l: seq<Span>)
    requires Sorted(l)
    ensures Size(l) >= |l|
  {
    if l != [] { SizeNatural(l[1..]); }
  }

  lemma {:induction false} SizeSmall(l: seq<Span>)
    requires Sorted(l)
    ensures l != [] ==> Size(l) <= 256 - l[0].start
  {
    if |l| > 1 { SizeSmall(l[1..]); }
  }

  lemma {:induction false} AtIn(l: seq<Span>, k: int)
    requires Sorted(l) && 0 <= k < Size(l)
    ensures Has(l, At(l, k)) && Pos(l, At(l, k)) == k && l[0].start <= At(l, k)
  {
    if l[0].start + k > l[0].finish {
      AtIn(l[1..], k - l[0].Size());
    }
  }

  lemma {:induction false} PosMonotone(l: seq<Span>, c: int, c': int)
    requires Sorted(l) && Has(l, c) && Has(l, c') && c < c'
    ensures Pos(l, c) < Pos(l, c')
  {
    if !l[0].Has(c) {
      LaterAfter(l, c);
      PosMonotone(l[1..], c, c');
    } else if !l[0].Has(c') {
      PosIn(l[1..], c');
    }
  }

  // A second byte of a later range comes after the first range
  lemma {:induction false} LaterAfter(l: seq<Span>, c: int)
    requires Sorted(l) && l != [] && Has(l[1..], c)
    ensures c > l[0].finish
  {
    HasWhere(l[1..], c);
  }

  /** add_b2r: in front of the first range that does not start before this one; the bounds are stored as bytes */
  function Added(l: seq<Span>, start: int, finish: int): seq<Span> {
    if l != [] && l[0].start < start then [l[0]] + Added(l[1..], start, finish)
    else [Span(start % 256, finish % 256)] + l
  }

  // The place where the loop of add_b2r stops
  lemma {:induction false} AddedAt(l: seq<Span>, start: int, finish: int, i: nat)
    requires i <= |l| && (forall k | 0 <= k < i :: l[k].start < start) && (i < |l| ==> l[i].start >= start)
    ensures Added(l, start, finish) == l[..i] + [Span(start % 256, finish % 256)] + l[i..]
  {
    if i > 0 {
      AddedAt(l[1..], start, finish, i - 1);
    }
  }

  // The range can be added to the list
  ghost predicate Fits(l: seq<Span>, start: int, finish: int) {
    0 <= start <= finish <= 255 && forall i | 0 <= i < |l| :: l[i].finish < start || finish < l[i].start
  }

  lemma {:induction false} AddedMembers(l: seq<Span>, start: int, finish: int, r: Span)
    requires 0 <= start <= 255 && 0 <= finish <= 255
    ensures r in Added(l, start, finish) <==> r in l || r == Span(start, finish)
    ensures |Added(l, start, finish)| == |l| + 1
  {
    if l != [] && l[0].start < start {
      AddedMembers(l[1..], start, finish, r);
      assert l == [l[0]] + l[1..];
    }
  }

  // A list is sorted if its first range comes before the others and these are sorted
  lemma SortedFrom(r: Span, l: seq<Span>)
    requires Sorted(l) && 0 <= r.start <= r.finish <= 255 && forall q | q in l :: r.finish < q.start
    ensures Sorted([r] + l)
  {
  }

  lemma AddedFront(l: seq<Span>, start: int, finish: int)
    requires Sorted(l) && Fits(l, start, finish) && (l != [] ==> l[0].start >= start)
    ensures Sorted([Span(start, finish)] + l)
  {
    forall q | q in l ensures finish < q.start {
      var i :| 0 <= i < |l| && l[i] == q;
      if i > 0 { assert l[0].finish < l[i].start; }
    }
    SortedFrom(Span(start, finish), l);
  }

  lemma AddedLater(l: seq<Span>, start: int, finish: int, rest: seq<Span>)
    requires Sorted(l) && Fits(l, start, finish) && l != [] && l[0].start < start
    requires rest == Added(l[1..], start, finish)
    ensures forall q | q in rest :: l[0].finish < q.start
  {
    forall q | q in rest ensures l[0].finish < q.start {
      AddedMembers(l[1..], start, finish, q);
    }
  }

  lemma TailFits(l: seq<Span>, start: int, finish: int)
    requires Sorted(l) && Fits(l, start, finish) && l != []
    ensures Sorted(l[1..]) && Fits(l[1..], start, finish) && 0 <= l[0].start <= l[0].finish <= 255
  {
    forall i | 0 <= i < |l[1..]| ensures l[1..][i].finish < start || finish < l[1..][i].start {
      assert l[1..][i] == l[i + 1];
    }
  }

  lemma {:induction false} AddedSorted(l: seq<Span>, start: int, finish: int)
    requires Sorted(l) && Fits(l, start, finish)
    ensures Sorted(Added(l, start, finish))
  {
    hide Sorted;
    if l != [] && l[0].start < start {
      var rest := Added(l[1..], start, finish);
      TailFits(l, start, finish);
      AddedSorted(l[1..], start, finish);
      AddedLater(l, start, finish, rest);
      SortedFrom(l[0], rest);
    } else {
      AddedFront(l, start, finish);
    }
  }

  // A sorted list is given by its ranges
  lemma {:induction false} SortedUnique(l: seq<Span>, m: seq<Span>)
    requires Sorted(l) && Sorted(m) && forall r :: r in l <==> r in m
    ensures l == m
  {
    if l == [] {
      assert forall i | 0 <= i < |m| :: m[i] in m;
    } else {
      assert l[0] in m && m[0] in l;
      SameFirst(l, m);
      forall r ensures r in l[1..] <==> r in m[1..] {
        InTail(l, r);
        InTail(m, r);
      }
      SortedUnique(l[1..], m[1..]);
      assert l == [l[0]] + l[1..] && m == [m[0]] + m[1..];
    }
  }

  lemma SameFirst(l: seq<Span>, m: seq<Span>)
    requires Sorted(l) && Sorted(m) && l != [] && m != [] && l[0] in m && m[0] in l
    ensures l[0] == m[0]
  {
    var i :| 0 <= i < |m| && m[i] == l[0];
    var j :| 0 <= j < |l| && l[j] == m[0];
    if i > 0 { assert m[0].finish < m[i].start; }
    if j > 0 { assert l[0].finish < l[j].start; }
  }

  lemma InTail(l: seq<Span>, r: Span)
    requires Sorted(l) && l != []
    ensures r in l[1..] <==> r in l && r != l[0]
  {
    if r in l[1..] {
      var i :| 0 <= i < |l[1..]| && l[1..][i] == r;
      assert l[0].finish < l[i + 1].start;
    }
  }

  // Adding the ranges of w one by one
  function AddedAll(l: seq<Span>, w: seq<Span>): seq<Span>
    decreases |w|
  {
    if w == [] then l else AddedAll(Added(l, w[0].start, w[0].finish), w[1..])
  }

  // Ranges of bytes, pairwise apart and apart from those of l
  ghost predicate Apart(l: seq<Span>, w: seq<Span>) {
    && (forall i | 0 <= i < |w| :: Fits(l, w[i].start, w[i].finish))
    && (forall i, j | 0 <= i < j < |w| :: w[i].finish < w[j].start || w[j].finish < w[i].start)
  }

  lemma ApartNext(l: seq<Span>, w: seq<Span>)
    requires Apart(l, w) && w != []
    ensures Apart(Added(l, w[0].start, w[0].finish), w[1..])
  {
    var l' := Added(l, w[0].start, w[0].finish);
    forall i, k | 0 <= i < |w[1..]| && 0 <= k < |l'|
      ensures l'[k].finish < w[1..][i].start || w[1..][i].finish < l'[k].start
    {
      assert w[1..][i] == w[i + 1] && Fits(l, w[0].start, w[0].finish) && Fits(l, w[i + 1].start, w[i + 1].finish);
      AddedMembers(l, w[0].start, w[0].finish, l'[k]);
      assert l'[k] in l';
    }
    assert forall i | 0 <= i < |w[1..]| :: w[1..][i] == w[i + 1] && Fits(l, w[i + 1].start, w[i + 1].finish);
  }

  // The list that results is sorted and has exactly the ranges added
  lemma {:induction false} AddedAllSorted(l: seq<Span>, w: seq<Span>)
    requires Sorted(l) && Apart(l, w)
    ensures Sorted(AddedAll(l, w)) && forall r :: r in AddedAll(l, w) <==> r in l || r in w
    decreases |w|
  {
    hide Sorted, Apart, Fits;
    if w != [] {
      var l' := Added(l, w[0].start, w[0].finish);
      FitsFirst(l, w);
      AddedSorted(l, w[0].start, w[0].finish);
      ApartNext(l, w);
      AddedAllSorted(l', w[1..]);
      forall r ensures r in AddedAll(l, w) <==> r in l || r in w {
        AddedMembers(l, w[0].start, w[0].finish, r);
        assert w == [w[0]] + w[1..];
      }
    }
  }

  lemma FitsFirst(l: seq<Span>, w: seq<Span>)
    requires Apart(l, w) && w != []
    ensures Fits(l, w[0].start, w[0].finish) && 0 <= w[0].start <= 255 && 0 <= w[0].finish <= 255
  {
  }

  // The order in which they are added does not matter
  lemma OrderOfAdding(l: seq<Span>, v: seq<Span>, w: seq<Span>)
    requires Sorted(l) && Apart(l, v) && Apart(l, w) && forall r :: r in v <==> r in w
    ensures AddedAll(l, v) == AddedAll(l, w)
  {
    AddedAllSorted(l, v);
    AddedAllSorted(l, w);
    SortedUnique(AddedAll(l, v), AddedAll(l, w));
  }

  function FirstByte(code: int): int { code / 256 }
  function SecondByte(code: int): int { code % 256 }

  predicate LegalCode(l: seq<Span>, code: int) { code >= 0 && Has(l, SecondByte(code)) }

  /** The position of a code among all legal codes. */
  function Position(l: seq<Span>, code: int): int
    requires LegalCode(l, code)
  {
    Size(l) * FirstByte(code) + Pos(l, SecondByte(code))
  }

  function CodeOf(l: seq<Span>, pos: int): int
    requires Size(l) > 0
  {
    pos / Size(l) * 256 + At(l, pos % Size(l))
  }

  // Positions and legal codes correspond one to one, over all natural numbers
  lemma PositionInverse(l: seq<Span>, code: int)
    requires Sorted(l) && LegalCode(l, code)
    ensures Size(l) > 0 && Position(l, code) >= 0 && CodeOf(l, Position(l, code)) == code
  {
    PosIn(l, SecondByte(code));
    DivUnique(Size(l), FirstByte(code), Pos(l, SecondByte(code)), Position(l, code));
    TimesNatural(Size(l), FirstByte(code));
  }

  lemma CodeOfInverse(l: seq<Span>, pos: int)
    requires Sorted(l) && Size(l) > 0 && pos >= 0
    ensures LegalCode(l, CodeOf(l, pos)) && Position(l, CodeOf(l, pos)) == pos
  {
    hide Sorted, Has, Size, At, Pos;
    var q, m := pos / Size(l), pos % Size(l);
    AtIn(l, m);
    PosIn(l, At(l, m));
    MakeCode(q, At(l, m));
  }

  lemma MakeCode(byte1: int, byte2: int)
    requires 0 <= byte2 <= 255
    ensures FirstByte(byte1 * 256 + byte2) == byte1 && SecondByte(byte1 * 256 + byte2) == byte2
  {
  }

  lemma PositionMonotone(l: seq<Span>, code: int, code': int)
    requires Sorted(l) && LegalCode(l, code) && LegalCode(l, code')
    ensures code < code' <==> Position(l, code) < Position(l, code')
  {
    PositionInverse(l, code);
    PositionInverse(l, code');
    if code < code' {
      PositionUp(l, code, code');
    } else if code' < code {
      PositionUp(l, code', code);
    }
  }

  lemma PositionUp(l: seq<Span>, code: int, code': int)
    requires Sorted(l) && LegalCode(l, code) && LegalCode(l, code') && code < code'
    ensures Position(l, code) < Position(l, code')
  {
    var h, h' := FirstByte(code), FirstByte(code');
    PosIn(l, SecondByte(code));
    PosIn(l, SecondByte(code'));
    if h == h' {
      PosMonotone(l, SecondByte(code), SecondByte(code'));
    } else {
      TimesNext(Size(l), h, h');
    }
  }
}
