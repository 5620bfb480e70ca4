/** The integer ellipse walk of devarc.c. */
module Arc {
  import opened Arithmetic

  // 4f at (X/2, Y/2), where f(x, y) = B x^2 + A y^2 - A B is zero on the ellipse, negative inside, positive outside
  function F4(A: int, B: int, X: int, Y: int): int {
    B * X * X + A * Y * Y - 4 * A * B
  }

  lemma SquareMonotone(a: int, b: int)
    requires 0 <= a <= b
    ensures a * a <= b * b
  {
    TimesMonotone(a, a, b);
    TimesMonotone(b, a, b);
  }

  lemma NextMultiple(k: int, n: int)
    ensures k * (n + 1) == k * n + k && k * (n - 1) == k * n - k
  {
  }

  lemma Grown(k: int, x: int, c: int, n: int)
    ensures k * (2 * (2 * x + c) * n + n * n) == 4 * n * (k * x) + (2 * c * n + n * n) * k
  {
    assert 2 * (2 * x + c) * n == 4 * n * x + 2 * c * n;
    Distribute(4 * n * x, 2 * c * n + n * n, k);
  }

  lemma Squared(A: int, B: int, X: int, Y: int)
    ensures F4(A, B, X, Y) == B * (X * X) + A * (Y * Y) - 4 * A * B
  {
    Reassociate(B, X);
    Reassociate(A, Y);
  }

  lemma Reassociate(k: int, n: int)
    ensures k * n * n == k * (n * n)
  {
  }

  lemma SquareOfSum(k: int, a: int, n: int)
    ensures k * ((a + n) * (a + n)) == k * (a * a) + k * (2 * a * n + n * n)
  {
    Distribute(a, n, a + n);
    Distribute(a, n, a);
    Distribute(a, n, n);
    assert 2 * a * n == a * n + n * a;
    Distribute(a * a, 2 * a * n + n * n, k);
  }

  // Going n half pixels right from column x and c halves, or up from row y and c halves
  lemma StepX(A: int, B: int, x: int, c: int, Y: int, n: int)
    ensures F4(A, B, 2 * x + c + n, Y) == F4(A, B, 2 * x + c, Y) + 4 * n * (B * x) + (2 * c * n + n * n) * B
  {
    hide F4;
    Squared(A, B, 2 * x + c, Y);
    Squared(A, B, 2 * x + c + n, Y);
    SquareOfSum(B, 2 * x + c, n);
    Grown(B, x, c, n);
  }

  lemma StepY(A: int, B: int, X: int, y: int, c: int, n: int)
    ensures F4(A, B, X, 2 * y + c + n) == F4(A, B, X, 2 * y + c) + 4 * n * (A * y) + (2 * c * n + n * n) * A
  {
    hide F4;
    Squared(A, B, X, 2 * y + c);
    Squared(A, B, X, 2 * y + c + n);
    SquareOfSum(A, 2 * y + c, n);
    Grown(A, y, c, n);
  }

  // 4f at the four points around (x, y) that the first loop keeps track of
  function East(A: int, B: int, x: int, y: int): int { F4(A, B, 2 * x + 2, 2 * y - 1) }   // (x+1, y-1/2)
  function North(A: int, B: int, x: int, y: int): int { F4(A, B, 2 * x, 2 * y + 1) }      // (x, y+1/2)
  function South(A: int, B: int, x: int, y: int): int { F4(A, B, 2 * x, 2 * y - 1) }      // (x, y-1/2)
  function West(A: int, B: int, x: int, y: int): int { F4(A, B, 2 * x - 2, 2 * y) }       // (x-1, y)

  // Moving right, or right and down, changes them by amounts linear in B*x and A*y
  lemma MoveRight(A: int, B: int, x: int, y: int)
    ensures var bx, ay := B * x, A * y;
      && East(A, B, x + 1, y) == East(A, B, x, y) + 8 * bx + 12 * B
      && North(A, B, x + 1, y) == North(A, B, x, y) + 8 * bx + 4 * B
      && South(A, B, x + 1, y) == East(A, B, x, y)
      && West(A, B, x + 1, y) == East(A, B, x, y) - 8 * bx - 4 * B + 4 * ay - A
  {
    hide F4;
    StepX(A, B, x, 2, 2 * y - 1, 2);
    StepX(A, B, x, 0, 2 * y + 1, 2);
    StepX(A, B, x, 0, 2 * y - 1, 2);
    StepY(A, B, 2 * x, y, -1, 1);
  }

  lemma MoveDown(A: int, B: int, x: int, y: int)
    ensures var bx, ay := B * x, A * y;
      && East(A, B, x + 1, y - 1) == East(A, B, x, y) + 8 * bx + 12 * B - 8 * ay + 8 * A
      && North(A, B, x + 1, y - 1) == East(A, B, x, y)
      && South(A, B, x + 1, y - 1) == South(A, B, x, y) + 8 * bx + 4 * B - 8 * ay + 8 * A
      && West(A, B, x + 1, y - 1) == South(A, B, x, y) - 4 * ay + 3 * A
  {
    hide F4;
    StepX(A, B, x, 2, 2 * y - 1, 2);
    StepY(A, B, 2 * x + 4, y, -1, -2);
    StepX(A, B, x, 0, 2 * y - 1, 2);
    StepY(A, B, 2 * x + 2, y, -1, -2);
    StepY(A, B, 2 * x, y, -1, -1);
  }

  // C division of a long by 2
  function HalfTowardZero(n: int): int {
    if n >= 0 then n / 2 else -((-n) / 2)
  }

  // The first loop's invariant in terms of the values p, q, r, w of 4f at East, North, South and West;
  // all its arithmetic is linear in bx = B*xp and ay = A*yp
  ghost predicate Values1(A: int, B: int, bx: int, ay: int, d: int, p: int, q: int, r: int, w: int) {
    4 * d == p - A % 4 && q > 1 && (bx < ay ==> r <= 1) && (bx >= ay ==> w <= 0)
  }

  // What holds at the head of the first loop
  ghost predicate Region1(rx: int, ry: int, A: int, B: int, xp: int, yp: int, d: int, dx: int, dy: int) {
    && 0 <= xp <= rx && 0 <= yp <= ry && dx == 2 * (B * xp) && dy == 2 * (A * yp)
    && Values1(A, B, B * xp, A * yp, d, East(A, B, xp, yp), North(A, B, xp, yp), South(A, B, xp, yp),
        West(A, B, xp, yp))
  }

  // The squares of the semi axes
  ghost predicate Axes(rx: int, ry: int, A: int, B: int) {
    rx >= 1 && ry >= 1 && A == rx * rx && B == ry * ry
  }

  lemma Start(rx: int, ry: int, A: int, B: int)
    requires Axes(rx, ry, A, B)
    ensures Region1(rx, ry, A, B, 0, ry, B - A * ry + A / 4, 0, 2 * A * ry)
  {
    hide F4, East, North, South, West;
    SquareMonotone(1, rx);
    SquareMonotone(1, ry);
    TimesMonotone(A, 1, ry);
    StartPoints(A, B, ry);
  }

  lemma StartPoints(A: int, B: int, ry: int)
    requires B == ry * ry
    ensures East(A, B, 0, ry) == -4 * (A * ry) + A + 4 * B
    ensures North(A, B, 0, ry) == 4 * (A * ry) + A
    ensures South(A, B, 0, ry) == -4 * (A * ry) + A
  {
    hide F4;
    StartsOnEllipse(A, B, ry);
    StepY(A, B, 0, ry, 0, 1);
    StepY(A, B, 0, ry, 0, -1);
    StepX(A, B, 0, 0, 2 * ry - 1, 2);
  }

  lemma StartsOnEllipse(A: int, B: int, ry: int)
    requires B == ry * ry
    ensures F4(A, B, 0, 2 * ry) == 0
  {
    hide F4;
    Squared(A, B, 0, 2 * ry);
    assert (2 * ry) * (2 * ry) == 4 * B;
  }

  lemma SquareMod4(n: int)
    ensures (n * n) % 4 <= 1
  {
    if n % 2 == 0 {
      assert n * n == 4 * ((n / 2) * (n / 2));
    } else {
      var k := n / 2;
      assert n == 2 * k + 1;
      assert n * n == 4 * (k * k + k) + 1;
    }
  }

  lemma StepValues1(A: int, B: int, bx: int, ay: int, d: int, p: int, q: int, r: int, w: int)
    requires A >= 1 && B >= 1 && A % 4 <= 1 && bx >= 0 && ay >= A
    requires Values1(A, B, bx, ay, d, p, q, r, w) && bx < ay
    ensures d > 0 ==>
      Values1(A, B, bx + B, ay - A, d - (2 * ay - 2 * A) + B + (2 * bx + 2 * B), p + 8 * bx + 12 * B - 8 * ay + 8 * A,
          p, r + 8 * bx + 4 * B - 8 * ay + 8 * A, r - 4 * ay + 3 * A)
    ensures d <= 0 ==>
      Values1(A, B, bx + B, ay, d + B + (2 * bx + 2 * B), p + 8 * bx + 12 * B, q + 8 * bx + 4 * B, p,
          p - 8 * bx - 4 * B + 4 * ay - A)
  {
  }

  // A point outside the columns 0 to rx is outside the ellipse
  lemma BeyondTip(rx: int, B: int, x: int, Y: int)
    requires x >= rx >= 0 && B >= 0
    ensures F4(rx * rx, B, 2 * x, Y) >= (rx * rx) * (Y * Y)
  {
    var A := rx * rx;
    assert x * x >= A;
    assert B * (x * x) >= B * A;
    assert F4(A, B, 2 * x, Y) == 4 * (B * (x * x)) + A * (Y * Y) - 4 * (B * A);
  }

  // Where the ellipse is flatter than 45 degrees, beyond the tip is outside by more than rounding
  lemma ColumnBound(rx: int, A: int, B: int, xp: int, yp: int)
    requires A == rx * rx && A >= 1 && B >= 1 && xp >= rx >= 1 && yp >= 1 && B * xp < A * yp
    ensures South(A, B, xp, yp) > 1
  {
    var Y := 2 * yp - 1;
    BeyondTip(rx, B, xp, Y);
    assert A * yp >= 2 by { assert B * xp >= 1; }
    if yp >= 2 {
      assert Y * Y >= 3;
    }
    assert A * (Y * Y) >= 2;
  }

  // One round of the first loop: down too if d > 0, then right
  lemma Region1Step(rx: int, ry: int, A: int, B: int, xp: int, yp: int, d: int, dx: int, dy: int)
    requires Axes(rx, ry, A, B) && Region1(rx, ry, A, B, xp, yp, d, dx, dy) && dx < dy
    ensures if d > 0 then Region1(rx, ry, A, B, xp + 1, yp - 1, d - (dy - 2 * A) + B + (dx + 2 * B), dx + 2 * B,
        dy - 2 * A)
      else Region1(rx, ry, A, B, xp + 1, yp, d + B + (dx + 2 * B), dx + 2 * B, dy)
  {
    Region1Room(rx, ry, A, B, xp, yp, d, dx, dy);
    NextMultiple(B, xp);
    NextMultiple(A, yp);
    StepValues1(A, B, B * xp, A * yp, d, East(A, B, xp, yp), North(A, B, xp, yp), South(A, B, xp, yp),
        West(A, B, xp, yp));
    if d > 0 {
      MoveDown(A, B, xp, yp);
    } else {
      MoveRight(A, B, xp, yp);
    }
  }

  // There is a row below and a column to the right as long as the first loop goes on
  lemma Region1Room(rx: int, ry: int, A: int, B: int, xp: int, yp: int, d: int, dx: int, dy: int)
    requires Axes(rx, ry, A, B) && Region1(rx, ry, A, B, xp, yp, d, dx, dy) && dx < dy
    ensures A >= 1 && B >= 1 && A % 4 <= 1 && 0 <= xp < rx && yp >= 1 && B * xp >= 0 && A * yp >= A
  {
    TimesMonotone(B, 0, xp);
    assert yp >= 1;
    TimesMonotone(A, 1, yp);
    SquareMod4(rx);
    if xp >= rx {
      ColumnBound(rx, A, B, xp, yp);
    }
  }

  // The error term of the first loop is f at the midpoint (xp+1, yp-1/2), with A/4 rounded down
  lemma ErrorTerm(rx: int, ry: int, A: int, B: int, xp: int, yp: int, d: int, dx: int, dy: int)
    requires Region1(rx, ry, A, B, xp, yp, d, dx, dy)
    ensures d == B * ((xp + 1) * (xp + 1)) + A * (yp * (yp - 1)) + A / 4 - A * B
  {
    ExpandEast(A, B, xp, yp);
  }

  lemma ExpandEast(A: int, B: int, x: int, y: int)
    ensures East(A, B, x, y) == 4 * (B * ((x + 1) * (x + 1))) + 4 * (A * (y * (y - 1))) + A - 4 * (A * B)
  {
  }

  /** The variables of both loops. */
  datatype Pen = Pen(xp: int, yp: int, d: int, dx: int, dy: int)

  // The first loop's body: down too if d > 0, then right
  function Moved(A: int, B: int, p: Pen): Pen {
    if p.d > 0 then Pen(p.xp + 1, p.yp - 1, p.d - (p.dy - 2 * A) + (B + (p.dx + 2 * B)), p.dx + 2 * B, p.dy - 2 * A)
    else Pen(p.xp + 1, p.yp, p.d + (B + (p.dx + 2 * B)), p.dx + 2 * B, p.dy)
  }

  // The variables after k rounds of the first loop
  function Rounds(rx: int, ry: int, k: nat): Pen {
    var A, B := rx * rx, ry * ry;
    if k == 0 then Pen(0, ry, B - A * ry + A / 4, 0, 2 * A * ry) else Moved(A, B, Rounds(rx, ry, k - 1))
  }

  // The head at which the first loop stops
  ghost predicate Stops(rx: int, ry: int, k: nat) {
    var p := Rounds(rx, ry, k);
    p.dx >= p.dy && forall i: nat | i < k :: Rounds(rx, ry, i).dx < Rounds(rx, ry, i).dy
  }

  // Every head up to the one where the loop stops is in the first region
  lemma {:induction false} RoundsInRegion1(rx: int, ry: int, A: int, B: int, i: nat, k: nat)
    requires Axes(rx, ry, A, B) && Stops(rx, ry, k) && i <= k
    ensures InRegion1(rx, ry, A, B, Rounds(rx, ry, i))
  {
    hide Region1;
    if i == 0 {
      Start(rx, ry, A, B);
    } else {
      RoundsInRegion1(rx, ry, A, B, i - 1, k);
      var p := Rounds(rx, ry, i - 1);
      Region1Step(rx, ry, A, B, p.xp, p.yp, p.d, p.dx, p.dy);
    }
  }

  ghost predicate InRegion1(rx: int, ry: int, A: int, B: int, p: Pen) {
    Region1(rx, ry, A, B, p.xp, p.yp, p.d, p.dx, p.dy)
  }

  // The error term also tells the value half a pixel below the current point
  lemma SouthIs(rx: int, ry: int, A: int, B: int, xp: int, yp: int, d: int, dx: int, dy: int)
    requires Axes(rx, ry, A, B) && Region1(rx, ry, A, B, xp, yp, d, dx, dy)
    ensures South(A, B, xp, yp) == 4 * (d - dx - B) + A % 4
    ensures NearVertically(A, B, Segment(xp, yp)) <==> d <= dx + B
  {
    hide F4, East, West, North, South;
    EastOfSouth(A, B, xp, yp);
    SquareMod4(rx);
  }

  lemma EastOfSouth(A: int, B: int, x: int, y: int)
    ensures East(A, B, x, y) == South(A, B, x, y) + 8 * (B * x) + 4 * B
  {
    hide F4;
    StepX(A, B, x, 0, 2 * y - 1, 2);
  }

  // Where the first loop stops, the ellipse is within half a pixel above, and below just if the last round left d at
  // most dy; so it always is if that round did not go down
  lemma LastRound(rx: int, ry: int, A: int, B: int, k: nat)
    requires Axes(rx, ry, A, B) && Stops(rx, ry, k)
    ensures var p := Rounds(rx, ry, k); k > 0 && North(A, B, p.xp, p.yp) > 0
    ensures var p, q := Rounds(rx, ry, k), Rounds(rx, ry, k - 1);
      && (NearVertically(A, B, Segment(p.xp, p.yp)) <==> q.d <= p.dy)
      && (q.d <= 0 ==> NearVertically(A, B, Segment(p.xp, p.yp)))
  {
    hide North, South, East, West, NearVertically;
    var p := Rounds(rx, ry, k);
    if k == 0 { TimesNext(2 * A, 0, ry); }
    RoundsInRegion1(rx, ry, A, B, k, k);
    SouthIs(rx, ry, A, B, p.xp, p.yp, p.d, p.dx, p.dy);
    TimesNatural(A, p.yp);
  }

  // The loop has gone right once a round
  lemma {:induction false} RoundsColumn(rx: int, ry: int, i: nat)
    ensures Rounds(rx, ry, i).xp == i
  {
    if i > 0 { RoundsColumn(rx, ry, i - 1); }
  }

  // A point that the loop goes through, flatter than 45 degrees, from which it goes down to a point where it stops and
  // which is further than half a pixel from the ellipse
  ghost predicate TurnsFar(A: int, B: int, x: int, y: int) {
    && 0 <= x && 1 <= y && North(A, B, x, y) > 1 && South(A, B, x, y) <= 1
    && B * x < A * y && A * (y - 1) <= B * (x + 1) && South(A, B, x + 1, y - 1) > 1
  }

  // Outside the ellipse going up or right leads further outside
  lemma Outwards(A: int, B: int, X: int, Y: int, X': int, Y': int)
    requires A >= 0 && B >= 0 && 0 <= X <= X' && 0 <= Y <= Y'
    ensures F4(A, B, X, Y) <= F4(A, B, X', Y')
  {
    SquareMonotone(X, X');
    SquareMonotone(Y, Y');
    TimesMonotone(B, X * X, X' * X');
    TimesMonotone(A, Y * Y, Y' * Y');
    Squared(A, B, X, Y);
    Squared(A, B, X', Y');
  }

  // Only one point of a column has the ellipse within half a pixel
  lemma OneInColumn(A: int, B: int, x: int, y: int, y': int)
    requires A >= 0 && B >= 0 && 0 <= x && 1 <= y && 1 <= y'
    requires North(A, B, x, y) > 1 && South(A, B, x, y) <= 1 && North(A, B, x, y') > 1 && South(A, B, x, y') <= 1
    ensures y == y'
  {
    hide F4;
    if y < y' { Outwards(A, B, 2 * x, 2 * y + 1, 2 * x, 2 * y' - 1); }
    if y' < y { Outwards(A, B, 2 * x, 2 * y' + 1, 2 * x, 2 * y - 1); }
  }

  // What is known at a head
  lemma HeadFacts(rx: int, ry: int, A: int, B: int, i: nat, k: nat)
    requires Axes(rx, ry, A, B) && Stops(rx, ry, k) && i <= k
    ensures var p := Rounds(rx, ry, i);
      && A >= 1 && B >= 1 && A % 4 <= 1 && p.xp == i && 0 <= p.yp && North(A, B, p.xp, p.yp) > 1
      && p.dx == 2 * (B * p.xp) && p.dy == 2 * (A * p.yp) && 4 * p.d == East(A, B, p.xp, p.yp) - A % 4
      && (i < k ==> p.dx < p.dy && p.yp >= 1 && South(A, B, p.xp, p.yp) <= 1)
  {
    hide North, South, East, West, Rounds;
    var p := Rounds(rx, ry, i);
    RoundsInRegion1(rx, ry, A, B, i, k);
    RoundsColumn(rx, ry, i);
    if i < k {
      Region1Room(rx, ry, A, B, p.xp, p.yp, p.d, p.dx, p.dy);
    }
    SquareMonotone(1, rx);
    SquareMonotone(1, ry);
    SquareMod4(rx);
  }

  // The loop stops after going down from such a point if there is one
  lemma TurnsFarThere(rx: int, ry: int, A: int, B: int, k: nat, x: int, y: int)
    requires Axes(rx, ry, A, B) && Stops(rx, ry, k) && TurnsFar(A, B, x, y)
    ensures Rounds(rx, ry, k).xp == x + 1 && Rounds(rx, ry, k).yp == y - 1
  {
    hide North, South, East, West, F4, Rounds;
    HeadFacts(rx, ry, A, B, k, k);
    if x >= k {
      BehindTurn(A, B, Rounds(rx, ry, k).xp, Rounds(rx, ry, k).yp, x, y);
    } else {
      GoesThrough(rx, ry, A, B, k, x, y);
    }
  }

  lemma GoesThrough(rx: int, ry: int, A: int, B: int, k: nat, x: nat, y: int)
    requires Axes(rx, ry, A, B) && Stops(rx, ry, k) && TurnsFar(A, B, x, y) && x < k
    ensures Rounds(rx, ry, k).xp == x + 1 && Rounds(rx, ry, k).yp == y - 1
  {
    hide *;
    FarFacts(A, B, x, y);
    HeadFacts(rx, ry, A, B, x, k);
    HeadFacts(rx, ry, A, B, x + 1, k);
    OneInColumn(A, B, x, y, Rounds(rx, ry, x).yp);
    RoundsNext(rx, ry, A, B, x);
    GoesDown(A, B, x, y);
    MovedDown(A, B, Rounds(rx, ry, x), Rounds(rx, ry, x + 1));
  }

  lemma FarFacts(A: int, B: int, x: int, y: int)
    requires TurnsFar(A, B, x, y)
    ensures 0 <= x && 1 <= y && North(A, B, x, y) > 1 && South(A, B, x, y) <= 1
    ensures B * x < A * y && A * (y - 1) <= B * (x + 1) && South(A, B, x + 1, y - 1) > 1
  {
    hide North, South;
  }

  lemma MovedDown(A: int, B: int, q: Pen, p: Pen)
    requires p == Moved(A, B, q) && q.d > 0
    ensures p.xp == q.xp + 1 && p.yp == q.yp - 1
  {
  }

  // Behind the head where the loop stops, no point flatter than 45 degrees has the ellipse within half a pixel
  lemma BehindTurn(A: int, B: int, px: int, py: int, x: int, y: int)
    requires A >= 1 && B >= 1 && 0 <= px <= x && 0 <= py && 1 <= y && North(A, B, px, py) > 1 && A * py <= B * px
    ensures B * x >= A * y || South(A, B, x, y) > 1
  {
    hide F4;
    TimesMonotone(B, px, x);
    if y <= py {
      TimesMonotone(A, y, py);
    } else {
      Outwards(A, B, 2 * px, 2 * py + 1, 2 * x, 2 * y - 1);
    }
  }

  // Where the point to the right and below is further than half a pixel from the ellipse, the loop goes down
  lemma GoesDown(A: int, B: int, x: int, y: int)
    requires A >= 1 && B >= 1 && 0 <= x && 1 <= y && South(A, B, x + 1, y - 1) > 1
    ensures East(A, B, x, y) > 1
  {
    hide F4;
    if y >= 2 {
      Outwards(A, B, 2 * x + 2, 2 * y - 3, 2 * x + 2, 2 * y - 1);
    } else {
      Mirrored(A, B, 2 * x + 2, 1);
    }
  }

  lemma Mirrored(A: int, B: int, X: int, Y: int)
    ensures F4(A, B, X, -Y) == F4(A, B, X, Y)
  {
  }

  // Where the first loop stops, the ellipse is within half a pixel above, and below just if there is no such point
  lemma NearAtTurn(rx: int, ry: int, A: int, B: int, k: nat)
    requires Axes(rx, ry, A, B) && Stops(rx, ry, k)
    ensures var p := Rounds(rx, ry, k); North(A, B, p.xp, p.yp) > 0
    ensures var p := Rounds(rx, ry, k);
      NearVertically(A, B, Segment(p.xp, p.yp)) <==> !exists x, y :: TurnsFar(A, B, x, y)
  {
    hide North, South, East, West, F4, Rounds;
    var p := Rounds(rx, ry, k);
    HeadFacts(rx, ry, A, B, k, k);
    if x, y :| TurnsFar(A, B, x, y) {
      TurnsFarThere(rx, ry, A, B, k, x, y);
    }
    if !NearVertically(A, B, Segment(p.xp, p.yp)) {
      LastRound(rx, ry, A, B, k);
      var q := Rounds(rx, ry, k - 1);
      HeadFacts(rx, ry, A, B, k - 1, k);
      RoundsNext(rx, ry, A, B, k - 1);
      assert TurnsFar(A, B, q.xp, q.yp);
    }
  }

  // For rx = ry = 2 it stops at (2, 1), where the circle is further than half a pixel below: the bound holds of the
  // points drawn inside the loop only
  lemma NotNearAtTurn()
    ensures Stops(2, 2, 2) && Rounds(2, 2, 2) == Pen(2, 1, 21, 16, 8) && South(4, 4, 2, 1) > 1
  {
    assert Rounds(2, 2, 0) == Pen(0, 2, -3, 0, 16);
    assert Rounds(2, 2, 1) == Pen(1, 2, 9, 8, 16);
  }

  // The first loop stops in row 0 short of the tip just if the ellipse is that flat
  lemma TipMissedExactly(rx: int, ry: int, A: int, B: int, k: nat)
    requires Axes(rx, ry, A, B) && Stops(rx, ry, k)
    ensures var p := Rounds(rx, ry, k); p.yp == 0 && p.xp < rx <==> A / 4 > B * (2 * rx - 1)
  {
    hide Region1, South;
    LastRound(rx, ry, A, B, k);
    var p, q := Rounds(rx, ry, k), Rounds(rx, ry, k - 1);
    RoundsInRegion1(rx, ry, A, B, k, k);
    RoundsInRegion1(rx, ry, A, B, k - 1, k);
    Region1Room(rx, ry, A, B, q.xp, q.yp, q.d, q.dx, q.dy);
    StopFacts(rx, ry, A, B, p);
    if p.yp == 0 {
      assert q.yp == 1 && q.d > 0;
      LastRow(rx, ry, A, B, q);
    } else if A / 4 > B * (2 * rx - 1) {
      FlatInRow(rx, A, B, p.xp, p.yp);
    }
  }

  lemma StopFacts(rx: int, ry: int, A: int, B: int, p: Pen)
    requires InRegion1(rx, ry, A, B, p) && p.dx >= p.dy
    ensures 0 <= p.xp <= rx && 0 <= p.yp && B * p.xp >= A * p.yp
  {
  }

  // Leaving row 1: the columns that are left decide
  lemma LastRow(rx: int, ry: int, A: int, B: int, q: Pen)
    requires Axes(rx, ry, A, B) && InRegion1(rx, ry, A, B, q) && q.dx < q.dy && q.yp == 1 && q.d > 0 && 0 <= q.xp < rx
    ensures q.xp + 1 < rx <==> A / 4 > B * (2 * rx - 1)
  {
    hide F4, East, West, North, South;
    var x, m := q.xp, q.xp + 1;
    ErrorTerm(rx, ry, A, B, x, 1, q.d, q.dx, q.dy);
    Row1South(A, B, x);
    assert South(A, B, x, 1) <= 1;
    Squares(rx, m, B);
    assert A * B == B * (rx * rx);
  }

  lemma Row1South(A: int, B: int, x: int)
    ensures South(A, B, x, 1) == 4 * (B * (x * x)) + A - 4 * (A * B)
  {
  }

  lemma Squares(rx: int, m: int, B: int)
    requires 1 <= m <= rx && B >= 1
    ensures m < rx ==> B * (rx * rx) - B * (m * m) >= B * (2 * rx - 1)
    ensures m == rx ==> B * (rx * rx) - B * ((m - 1) * (m - 1)) == B * (2 * rx - 1)
  {
    var n := rx - 1;
    assert rx * rx == n * n + (2 * rx - 1);
    Distribute(n * n, 2 * rx - 1, B);
    if m < rx {
      SquareMonotone(m, n);
      TimesMonotone(B, m * m, n * n);
    }
  }

  // So flat an ellipse is flatter than 45 degrees in every row above the last
  lemma FlatInRow(rx: int, A: int, B: int, x: int, y: int)
    requires A / 4 > B * (2 * rx - 1) && 0 <= x <= rx && rx >= 1 && y >= 1 && B >= 1
    ensures B * x < A * y
  {
    TimesMonotone(B, x, 2 * rx - 1);
    TimesNatural(B, x);
    TimesMonotone(A, 1, y);
  }

  // For rx = 8, ry = 1 it stops in row 0 short of the tip, which is then never drawn
  lemma TipMissed()
    ensures Stops(8, 1, 7) && Rounds(8, 1, 7) == Pen(7, 0, 16, 14, 0)
  {
    assert Rounds(8, 1, 0) == Pen(0, 1, -47, 0, 128);
    assert Rounds(8, 1, 1) == Pen(1, 1, -44, 2, 128);
    assert Rounds(8, 1, 2) == Pen(2, 1, -39, 4, 128);
    assert Rounds(8, 1, 3) == Pen(3, 1, -32, 6, 128);
    assert Rounds(8, 1, 4) == Pen(4, 1, -23, 8, 128);
    assert Rounds(8, 1, 5) == Pen(5, 1, -12, 10, 128);
    assert Rounds(8, 1, 6) == Pen(6, 1, 1, 12, 128);
  }

  // 4f at the points that the second loop keeps track of, beside West
  function SouthEast(A: int, B: int, x: int, y: int): int { F4(A, B, 2 * x + 1, 2 * y - 2) }   // (x+1/2, y-1)
  function HalfEast(A: int, B: int, x: int, y: int): int { F4(A, B, 2 * x + 1, 2 * y) }        // (x+1/2, y)
  function Beyond(A: int, B: int, x: int, y: int): int { F4(A, B, 2 * x + 3, 2 * y - 2) }      // (x+3/2, y-1)

  lemma StepDown(A: int, B: int, x: int, y: int)
    ensures var bx, ay := B * x, A * y;
      && SouthEast(A, B, x, y - 1) == SouthEast(A, B, x, y) - 8 * ay + 12 * A
      && West(A, B, x, y - 1) == West(A, B, x, y) - 8 * ay + 4 * A
      && Beyond(A, B, x, y - 1) == SouthEast(A, B, x, y) + 8 * bx + 8 * B - 8 * ay + 12 * A
      && HalfEast(A, B, x, y - 1) == SouthEast(A, B, x, y)
  {
    hide F4;
    StepY(A, B, 2 * x + 1, y, -2, -2);
    StepY(A, B, 2 * x - 2, y, 0, -2);
    StepX(A, B, x, 1, 2 * y - 2, 2);
    StepY(A, B, 2 * x + 3, y, -2, -2);
  }

  lemma StepDownRight(A: int, B: int, x: int, y: int)
    ensures var bx, ay := B * x, A * y;
      && SouthEast(A, B, x + 1, y - 1) == SouthEast(A, B, x, y) + 8 * bx + 8 * B - 8 * ay + 12 * A
      && West(A, B, x + 1, y - 1) == SouthEast(A, B, x, y) - 4 * bx - B
      && Beyond(A, B, x + 1, y - 1) == Beyond(A, B, x, y) + 8 * bx + 16 * B - 8 * ay + 12 * A
      && HalfEast(A, B, x + 1, y - 1) == Beyond(A, B, x, y)
  {
    hide F4;
    StepX(A, B, x, 1, 2 * y - 2, 2);
    StepY(A, B, 2 * x + 3, y, -2, -2);
    StepX(A, B, x, 1, 2 * y - 2, -1);
    StepX(A, B, x, 3, 2 * y - 2, 2);
    StepY(A, B, 2 * x + 5, y, -2, -2);
  }

  lemma Turn(A: int, B: int, x: int, y: int)
    ensures SouthEast(A, B, x, y) == East(A, B, x, y) - 4 * (B * x) - 3 * B - 4 * (A * y) + 3 * A
    ensures Beyond(A, B, x, y) == North(A, B, x, y) + 12 * (B * x) + 9 * B - 12 * (A * y) + 3 * A
  {
    hide F4;
    StepX(A, B, x, 2, 2 * y - 1, -1);
    StepY(A, B, 2 * x + 1, y, -1, -1);
    StepX(A, B, x, 0, 2 * y + 1, 3);
    StepY(A, B, 2 * x + 3, y, 1, -3);
  }

  // What holds at the head of the second loop; `turned` once a point of it has been drawn
  ghost predicate Region2(rx: int, ry: int, A: int, B: int, xp: int, yp: int, d: int, dx: int, dy: int, turned: bool) {
    && 0 <= xp <= rx && -1 <= yp <= ry && dx == 2 * (B * xp) && dy == 2 * (A * yp)
    && Values2(B * xp, A * yp, yp, d, SouthEast(A, B, xp, yp), HalfEast(A, B, xp, yp), West(A, B, xp, yp),
        Beyond(A, B, xp, yp), turned)
  }

  ghost predicate Values2(bx: int, ay: int, yp: int, d: int, u: int, t: int, w: int, s: int, turned: bool) {
    bx >= ay && -4 <= 4 * d - u <= 0 && (yp >= 0 ==> w <= 0) && s >= 0 && (turned ==> t >= 0)
  }

  lemma StepValues2(A: int, B: int, bx: int, ay: int, yp: int, d: int, u: int, t: int, w: int, s: int, turned: bool)
    requires A >= 1 && B >= 1 && bx >= 0 && yp >= 0 && (yp >= 1 ==> ay >= A)
    requires Values2(bx, ay, yp, d, u, t, w, s, turned)
    ensures d < 0 ==> Values2(bx + B, ay - A, yp - 1, d + (2 * bx + 2 * B) + (A - (2 * ay - 2 * A)),
      u + 8 * bx + 8 * B - 8 * ay + 12 * A, s, u - 4 * bx - B, s + 8 * bx + 16 * B - 8 * ay + 12 * A, true)
    ensures d >= 0 ==> Values2(bx, ay - A, yp - 1, d + (A - (2 * ay - 2 * A)),
      u - 8 * ay + 12 * A, u, w - 8 * ay + 4 * A, u + 8 * bx + 8 * B - 8 * ay + 12 * A, true)
  {
  }

  // A point inside the ellipse, half a column to the right of xp, leaves room for column xp+1
  lemma RoomForColumn(rx: int, B: int, xp: int, y: int)
    requires rx >= 0 && B >= 1 && xp >= rx
    ensures SouthEast(rx * rx, B, xp, y) > 0
  {
    var A := rx * rx;
    Expand(A, B, xp, y);
    SquareMonotone(rx, xp);
    TimesMonotone(B, A, xp * xp);
    TimesMonotone(B, 0, xp);
    SquareNatural(y - 1);
    TimesMonotone(A, 0, (y - 1) * (y - 1));
  }

  lemma SquareNatural(n: int)
    ensures n * n >= 0
  {
  }

  lemma Expand(A: int, B: int, x: int, y: int)
    ensures SouthEast(A, B, x, y) == 4 * (B * (x * x)) + 4 * (B * x) + B + 4 * (A * ((y - 1) * (y - 1))) - 4 * (B * A)
  {
  }

  // One round of the second loop: right too if d < 0, then down
  lemma Region2Step(rx: int, ry: int, A: int, B: int, xp: int, yp: int, d: int, dx: int, dy: int, turned: bool)
    requires Axes(rx, ry, A, B) && yp >= 0 && Region2(rx, ry, A, B, xp, yp, d, dx, dy, turned)
    ensures if d < 0 then Region2(rx, ry, A, B, xp + 1, yp - 1, d + (dx + 2 * B) + (A - (dy - 2 * A)), dx + 2 * B,
        dy - 2 * A, true)
      else Region2(rx, ry, A, B, xp, yp - 1, d + (A - (dy - 2 * A)), dx, dy - 2 * A, true)
  {
    Region2Room(rx, ry, A, B, xp, yp, d, dx, dy, turned);
    NextMultiple(B, xp);
    NextMultiple(A, yp);
    StepValues2(A, B, B * xp, A * yp, yp, d, SouthEast(A, B, xp, yp), HalfEast(A, B, xp, yp), West(A, B, xp, yp),
        Beyond(A, B, xp, yp), turned);
    if d < 0 {
      StepDownRight(A, B, xp, yp);
    } else {
      StepDown(A, B, xp, yp);
    }
  }

  lemma Region2Room(rx: int, ry: int, A: int, B: int, xp: int, yp: int, d: int, dx: int, dy: int, turned: bool)
    requires Axes(rx, ry, A, B) && yp >= 0 && Region2(rx, ry, A, B, xp, yp, d, dx, dy, turned)
    ensures A >= 1 && B >= 1 && B * xp >= 0 && (yp >= 1 ==> A * yp >= A) && (d < 0 ==> xp < rx)
  {
    TimesMonotone(B, 0, xp);
    if yp >= 1 {
      TimesMonotone(A, 1, yp);
    }
    if xp >= rx {
      RoomForColumn(rx, B, xp, yp);
    }
  }

  // The correction of d between the loops, for squares A and B, rounds 4d down by at most 4
  lemma Region2Start(rx: int, ry: int, A: int, B: int, xp: int, yp: int, d: int, dx: int, dy: int)
    requires Axes(rx, ry, A, B) && Region1(rx, ry, A, B, xp, yp, d, dx, dy) && dx >= dy
    ensures Region2(rx, ry, A, B, xp, yp, d + (HalfTowardZero(3 * (A - B)) - (dx + dy)) / 2, dx, dy, false)
  {
    SquareMod4(rx);
    SquareMod4(ry);
    Turn(A, B, xp, yp);
    TurnValues(A, B, B * xp, A * yp, yp, d, East(A, B, xp, yp), North(A, B, xp, yp), South(A, B, xp, yp),
        West(A, B, xp, yp), HalfEast(A, B, xp, yp));
  }

  lemma TurnValues(A: int, B: int, bx: int, ay: int, yp: int, d: int, p: int, q: int, r: int, w: int, t: int)
    requires A >= 0 && B >= 0 && A % 4 <= 1 && B % 4 <= 1
    requires Values1(A, B, bx, ay, d, p, q, r, w) && bx >= ay
    ensures Values2(bx, ay, yp, d + (HalfTowardZero(3 * (A - B)) - (2 * bx + 2 * ay)) / 2,
                    p - 4 * bx - 3 * B - 4 * ay + 3 * A, t, w, q + 12 * bx + 9 * B - 12 * ay + 3 * A, false)
  {
    Rounding(A, B, bx + ay);
  }

  lemma Rounding(A: int, B: int, n: int)
    requires A >= 0 && B >= 0 && A % 4 <= 1 && B % 4 <= 1
    ensures var c := (HalfTowardZero(3 * (A - B)) - 2 * n) / 2;
      -4 <= 4 * (c + n) - 3 * (A - B) - A % 4 <= 0
  {
    hide HalfTowardZero;
    var q, r, a, b := A / 4, B / 4, A % 4, B % 4;
    Halves(HalfTowardZero(3 * (A - B)), n);
    RoundedHalf(3 * (q - r), a, b);
    assert 3 * (A - B) == 4 * (3 * (q - r)) + 3 * (a - b);
  }

  lemma Halves(h: int, n: int)
    ensures (h - 2 * n) / 2 == h / 2 - n
  {
  }

  lemma RoundedHalf(m: int, a: int, b: int)
    requires 0 <= a <= 1 && 0 <= b <= 1
    ensures var h := HalfTowardZero(4 * m + 3 * (a - b)) / 2; -4 <= 4 * h - (4 * m + 3 * (a - b)) - a <= 0
  {
    if a == b {
      assert HalfTowardZero(4 * m) == 2 * m;
    } else if a > b {
      assert HalfTowardZero(4 * m + 3) == if m >= 0 then 2 * m + 1 else 2 * m + 2;
    } else {
      assert HalfTowardZero(4 * m - 3) == if m >= 1 then 2 * m - 2 else 2 * m - 1;
    }
  }

  // A column left of the tip is still inside the ellipse half a pixel further right
  lemma ShortOfTip(rx: int, A: int, B: int, xp: int)
    requires A == rx * rx && B >= 1 && 0 <= xp < rx
    ensures HalfEast(A, B, xp, 0) < 0
  {
    var X := 2 * xp + 1;
    SquareMonotone(X, 2 * rx - 1);
    assert X * X + 1 <= 4 * A;
    TimesMonotone(B, X * X + 1, 4 * A);
    NextMultiple(B, X * X);
    assert HalfEast(A, B, xp, 0) == B * (X * X) - B * (4 * A);
  }

  /** One drawarcsegment call: a point of the first quadrant, or the row from -xp to xp. */
  datatype Segment = Segment(xp: int, yp: int)

  // The next point of an outline touches the last one
  predicate Touches(a: Segment, b: Segment) {
    a != b && 0 <= b.xp - a.xp <= 1 && 0 <= a.yp - b.yp <= 1
  }

  // The ellipse passes within half a pixel above and below the segment's end
  ghost predicate NearVertically(A: int, B: int, s: Segment) {
    North(A, B, s.xp, s.yp) > 0 && South(A, B, s.xp, s.yp) <= 1
  }

  // The ellipse passes at most one pixel to the left of the segment's end; to the right, by at most
  // half a pixel unless this is where the second loop starts
  ghost predicate NearHorizontally(A: int, B: int, s: Segment, first: bool) {
    West(A, B, s.xp, s.yp) <= 0 && (first || HalfEast(A, B, s.xp, s.yp) >= 0)
  }

  // Columns never go back and rows never go up, up to the current point
  ghost predicate Onward(segs: seq<Segment>, ry: int, xp: int, yp: int) {
    && (forall i | 0 <= i < |segs| :: 0 <= segs[i].xp <= xp && yp <= segs[i].yp <= ry)
    && (forall i, j | 0 <= i < j < |segs| :: segs[i].xp <= segs[j].xp && segs[i].yp >= segs[j].yp)
  }

  // The points of an outline, from the top on, each touching the next
  ghost predicate Outline(segs: seq<Segment>, ry: int, xp: int, yp: int) {
    && (forall i | 0 < i < |segs| :: Touches(segs[i - 1], segs[i]))
    && (if segs == [] then xp == 0 && yp == ry
        else segs[0] == Segment(0, ry) && Touches(segs[|segs| - 1], Segment(xp, yp)))
  }

  // One segment for every row from the top to just above the current one
  ghost predicate Filled(segs: seq<Segment>, ry: int, yp: int) {
    |segs| == ry - yp && forall i | 0 <= i < |segs| :: segs[i].yp == ry - i
  }

  // What has been drawn before the current point
  ghost predicate Walk(segs: seq<Segment>, rx: int, ry: int, fill: bool, xp: int, yp: int) {
    Onward(segs, ry, xp, yp) && if fill then Filled(segs, ry, yp) else Outline(segs, ry, xp, yp)
  }

  // Drawing the current point, or in fill mode just moving right, and then moving on to (xp', yp')
  lemma WalkOn(segs: seq<Segment>, rx: int, ry: int, fill: bool, xp: int, yp: int, draw: bool, xp': int, yp': int)
    requires Walk(segs, rx, ry, fill, xp, yp) && 0 <= xp
    requires Touches(Segment(xp, yp), Segment(xp', yp')) && yp <= ry
    requires if fill then draw == (yp' < yp) else draw
    ensures Walk(if draw then segs + [Segment(xp, yp)] else segs, rx, ry, fill, xp', yp')
  {
    OnwardStays(segs, ry, xp, yp, xp', yp');
    if fill && draw {
      assert Filled(segs + [Segment(xp, yp)], ry, yp');
    } else if draw {
      assert Outline(segs + [Segment(xp, yp)], ry, xp', yp');
    }
  }

  lemma OnwardStays(segs: seq<Segment>, ry: int, xp: int, yp: int, xp': int, yp': int)
    requires Onward(segs, ry, xp, yp) && 0 <= xp <= xp' && yp' <= yp <= ry
    ensures Onward(segs, ry, xp', yp') && Onward(segs + [Segment(xp, yp)], ry, xp', yp')
  {
  }

  // What the first loop has drawn so far
  ghost predicate Drawn1(rx: int, ry: int, A: int, B: int, fill: bool, segs: seq<Segment>, xp: int, yp: int) {
    && Walk(segs, rx, ry, fill, xp, yp)
    && (forall i | 0 <= i < |segs| :: NearVertically(A, B, segs[i]))
    && (fill ==> forall i | 0 <= i < |segs| :: Widest(A, B, segs[i]))
  }

  // The next column of the row is further than half a pixel outside the ellipse
  ghost predicate Widest(A: int, B: int, s: Segment) { South(A, B, s.xp + 1, s.yp) > 1 }

  // Drawing one more segment in the first loop, or none if a filled row goes on
  lemma Draw1(rx: int, ry: int, A: int, B: int, fill: bool, segs: seq<Segment>, xp: int, yp: int, draw: bool, yp': int)
    requires Drawn1(rx, ry, A, B, fill, segs, xp, yp) && 0 <= xp && yp - 1 <= yp' <= yp <= ry
    requires draw == (yp' < yp || !fill) && NearVertically(A, B, Segment(xp, yp))
    requires fill && draw ==> Widest(A, B, Segment(xp, yp))
    ensures Drawn1(rx, ry, A, B, fill, if draw then segs + [Segment(xp, yp)] else segs, xp + 1, yp')
  {
    WalkOn(segs, rx, ry, fill, xp, yp, draw, xp + 1, yp');
  }

  // One round of the first loop: down too if d > 0, and right
  lemma Round1(rx: int, ry: int, A: int, B: int, xp: int, yp: int, d: int, dx: int, dy: int, yp': int, d': int,
               dy': int)
    requires Axes(rx, ry, A, B) && Region1(rx, ry, A, B, xp, yp, d, dx, dy) && dx < dy
    requires d > 0 ==> yp' == yp - 1 && dy' == dy - 2 * A && d' == d - dy' + (B + dx + 2 * B)
    requires d <= 0 ==> yp' == yp && dy' == dy && d' == d + (B + dx + 2 * B)
    ensures Region1(rx, ry, A, B, xp + 1, yp', d', dx + 2 * B, dy')
    ensures NearVertically(A, B, Segment(xp, yp)) && (d > 0 ==> Widest(A, B, Segment(xp, yp)))
    ensures dy' - (dx + 2 * B) < dy - dx
  {
    hide F4;
    Region1Room(rx, ry, A, B, xp, yp, d, dx, dy);
    MoveRight(A, B, xp, yp);
    Region1Step(rx, ry, A, B, xp, yp, d, dx, dy);
  }

  /** drawarc, first loop: where the ellipse is flatter than 45 degrees. */
  method FirstLoop(rx: int, ry: int, Asquared: int, Bsquared: int, fill: bool)
    returns (segs: seq<Segment>, xp: int, yp: int, d: int, dx: int, dy: int, ghost rounds: nat)
    requires Axes(rx, ry, Asquared, Bsquared)
    ensures Region1(rx, ry, Asquared, Bsquared, xp, yp, d, dx, dy) && dx >= dy
    ensures Stops(rx, ry, rounds) && Rounds(rx, ry, rounds) == Pen(xp, yp, d, dx, dy)
    ensures NearVertically(Asquared, Bsquared, Segment(xp, yp)) <==> d <= dx + Bsquared
    ensures Drawn1(rx, ry, Asquared, Bsquared, fill, segs, xp, yp)
  {
    hide Region1, Drawn1, Rounds;
    xp, yp := 0, ry;
    var TwoAsquared, TwoBsquared := 2 * Asquared, 2 * Bsquared;
    d := Bsquared - Asquared * ry + Asquared / 4;
    dx, dy := 0, TwoAsquared * ry;
    segs, rounds := [], 0;
    Start(rx, ry, Asquared, Bsquared);
    Draw1Start(rx, ry, Asquared, Bsquared, fill);
    while dx < dy
      invariant Region1(rx, ry, Asquared, Bsquared, xp, yp, d, dx, dy)
      invariant Drawn1(rx, ry, Asquared, Bsquared, fill, segs, xp, yp)
      invariant Rounds(rx, ry, rounds) == Pen(xp, yp, d, dx, dy)
      invariant forall i: nat | i < rounds :: Rounds(rx, ry, i).dx < Rounds(rx, ry, i).dy
      decreases dy - dx
    {
      ghost var segs0, xp0, yp0, d0, dx0, dy0 := segs, xp, yp, d, dx, dy;
      if d > 0 || !fill {
        segs := segs + [Segment(xp, yp)];
      }
      if d > 0 {
        yp := yp - 1;
        dy := dy - TwoAsquared;
        d := d - dy;
      }
      xp := xp + 1;
      dx := dx + TwoBsquared;
      d := d + (Bsquared + dx);
      Round1(rx, ry, Asquared, Bsquared, xp0, yp0, d0, dx0, dy0, yp, d, dy);
      Region1Bounds(rx, ry, Asquared, Bsquared, xp0, yp0, d0, dx0, dy0);
      Draw1(rx, ry, Asquared, Bsquared, fill, segs0, xp0, yp0, d0 > 0 || !fill, yp);
      RoundsNext(rx, ry, Asquared, Bsquared, rounds);
      rounds := rounds + 1;
    }
    SouthIs(rx, ry, Asquared, Bsquared, xp, yp, d, dx, dy);
  }

  lemma Draw1Start(rx: int, ry: int, A: int, B: int, fill: bool)
    requires Axes(rx, ry, A, B)
    ensures Drawn1(rx, ry, A, B, fill, [], 0, ry)
    ensures Rounds(rx, ry, 0) == Pen(0, ry, B - A * ry + A / 4, 0, 2 * A * ry)
  {
  }

  lemma Region1Bounds(rx: int, ry: int, A: int, B: int, xp: int, yp: int, d: int, dx: int, dy: int)
    requires Region1(rx, ry, A, B, xp, yp, d, dx, dy)
    ensures 0 <= xp && yp <= ry
  {
  }

  lemma RoundsNext(rx: int, ry: int, A: int, B: int, k: nat)
    requires Axes(rx, ry, A, B)
    ensures Rounds(rx, ry, k + 1) == Moved(A, B, Rounds(rx, ry, k))
  {
  }

  // What the second loop has drawn so far: it started at (xp0, yp0) after segs0
  ghost predicate Drawn2(rx: int, ry: int, A: int, B: int, fill: bool, segs0: seq<Segment>, xp0: int, yp0: int,
                         segs: seq<Segment>, xp: int, yp: int) {
    && Rows(segs0, xp0, yp0, segs, xp, yp, rx)
    && Walk(segs, rx, ry, fill, xp, yp)
    && (forall i | |segs0| <= i < |segs| :: NearHorizontally(A, B, segs[i], i == |segs0|))
    && (forall i | |segs0| < i < |segs| :: Chosen(A, B, segs[i - 1], segs[i]))
    && (|segs| > |segs0| ==> Chosen(A, B, segs[|segs| - 1], Segment(xp, yp)))
  }

  // Going down from a to b, the column changes just if the ellipse passes on the other side of the middle of the two
  // columns
  ghost predicate Chosen(A: int, B: int, a: Segment, b: Segment) {
    && (b.xp == a.xp + 1 ==> HalfEast(A, B, a.xp, b.yp) <= 0) && (b.xp == a.xp ==> HalfEast(A, B, a.xp, b.yp) >= 0)
  }

  // The segments after segs0 are one for every row from yp0 down to yp+1, the last one reaching the tip
  ghost predicate Rows(segs0: seq<Segment>, xp0: int, yp0: int, segs: seq<Segment>, xp: int, yp: int, rx: int) {
    && yp <= yp0 && |segs| == |segs0| + yp0 - yp && segs[..|segs0|] == segs0
    && (if yp == yp0 then xp == xp0 else segs[|segs0|] == Segment(xp0, yp0) && segs[|segs| - 1].yp == yp + 1)
    && (yp < 0 < yp0 ==> segs[|segs| - 1].xp == rx)
  }

  // Drawing one more segment in the second loop
  lemma Draw2(rx: int, ry: int, A: int, B: int, fill: bool, segs0: seq<Segment>, xp0: int, yp0: int, segs: seq<Segment>,
              xp: int, yp: int, xp': int)
    requires Drawn2(rx, ry, A, B, fill, segs0, xp0, yp0, segs, xp, yp)
    requires 0 <= yp <= ry && 0 <= xp <= xp' <= xp + 1 && (yp == 0 < yp0 ==> xp == rx)
    requires NearHorizontally(A, B, Segment(xp, yp), yp == yp0) && Chosen(A, B, Segment(xp, yp), Segment(xp', yp - 1))
    ensures Drawn2(rx, ry, A, B, fill, segs0, xp0, yp0, segs + [Segment(xp, yp)], xp', yp - 1)
  {
    WalkOn(segs, rx, ry, fill, xp, yp, true, xp', yp - 1);
    NextRow(segs0, xp0, yp0, segs, xp, yp, rx, xp');
  }

  lemma NextRow(segs0: seq<Segment>, xp0: int, yp0: int, segs: seq<Segment>, xp: int, yp: int, rx: int, xp': int)
    requires Rows(segs0, xp0, yp0, segs, xp, yp, rx) && yp >= 0 && (yp == 0 < yp0 ==> xp == rx)
    ensures Rows(segs0, xp0, yp0, segs + [Segment(xp, yp)], xp', yp - 1, rx)
  {
  }

  // One round of the second loop: right too if d < 0, and down
  lemma Round2(rx: int, ry: int, A: int, B: int, xp: int, yp: int, d: int, dx: int, dy: int, turned: bool, xp': int,
               d': int, dx': int)
    requires Axes(rx, ry, A, B) && Region2(rx, ry, A, B, xp, yp, d, dx, dy, turned) && yp >= 0
    requires d < 0 ==> xp' == xp + 1 && dx' == dx + 2 * B && d' == d + dx' + (A - (dy - 2 * A))
    requires d >= 0 ==> xp' == xp && dx' == dx && d' == d + (A - (dy - 2 * A))
    ensures Region2(rx, ry, A, B, xp', yp - 1, d', dx', dy - 2 * A, true)
    ensures NearHorizontally(A, B, Segment(xp, yp), !turned) && Chosen(A, B, Segment(xp, yp), Segment(xp', yp - 1))
    ensures yp == 0 && turned ==> xp == rx
  {
    if xp < rx {
      ShortOfTip(rx, A, B, xp);
    }
    Region2Step(rx, ry, A, B, xp, yp, d, dx, dy, turned);
    StepDown(A, B, xp, yp);
  }

  lemma Region2Bounds(rx: int, ry: int, A: int, B: int, xp: int, yp: int, d: int, dx: int, dy: int, turned: bool)
    requires Region2(rx, ry, A, B, xp, yp, d, dx, dy, turned)
    ensures 0 <= xp <= rx && yp <= ry
  {
  }

  /** drawarc, second loop: one segment for every row that is left. */
  method SecondLoop(rx: int, ry: int, Asquared: int, Bsquared: int, fill: bool, segs0: seq<Segment>, xp0: int, yp0: int,
                    d0: int, dx0: int, dy0: int)
    returns (segs: seq<Segment>, xp: int)
    requires Axes(rx, ry, Asquared, Bsquared) && yp0 >= 0
    requires Region2(rx, ry, Asquared, Bsquared, xp0, yp0, d0, dx0, dy0, false)
    requires Drawn2(rx, ry, Asquared, Bsquared, fill, segs0, xp0, yp0, segs0, xp0, yp0)
    ensures xp <= rx && Drawn2(rx, ry, Asquared, Bsquared, fill, segs0, xp0, yp0, segs, xp, -1)
  {
    hide *;
    var yp, d, dx, dy := yp0, d0, dx0, dy0;
    var TwoAsquared, TwoBsquared := 2 * Asquared, 2 * Bsquared;
    segs, xp := segs0, xp0;
    while yp >= 0
      invariant -1 <= yp <= yp0
      invariant Region2(rx, ry, Asquared, Bsquared, xp, yp, d, dx, dy, yp < yp0)
      invariant Drawn2(rx, ry, Asquared, Bsquared, fill, segs0, xp0, yp0, segs, xp, yp)
    {
      ghost var segs1, xp1, d1, dx1, dy1 := segs, xp, d, dx, dy;
      segs := segs + [Segment(xp, yp)];
      if d < 0 {
        xp := xp + 1;
        dx := dx + TwoBsquared;
        d := d + dx;
      }
      yp := yp - 1;
      dy := dy - TwoAsquared;
      d := d + (Asquared - dy);
      Round2(rx, ry, Asquared, Bsquared, xp1, yp + 1, d1, dx1, dy1, yp + 1 < yp0, xp, d, dx);
      Region2Bounds(rx, ry, Asquared, Bsquared, xp1, yp + 1, d1, dx1, dy1, yp + 1 < yp0);
      Draw2(rx, ry, Asquared, Bsquared, fill, segs0, xp0, yp0, segs1, xp1, yp + 1, xp);
    }
    Region2Bounds(rx, ry, Asquared, Bsquared, xp, yp, d, dx, dy, yp < yp0);
  }

  /** drawarc: the segments drawn for one quadrant; the first `turn` of them come from the first loop. */
  method DrawArc(rx: int, ry: int, fill: bool) returns (segs: seq<Segment>, ghost turn: nat)
    requires rx >= 1 && ry >= 1
    ensures turn < |segs| && segs[|segs| - 1].yp == 0
    ensures forall i | 0 <= i < |segs| :: 0 <= segs[i].xp <= rx && 0 <= segs[i].yp <= ry
    ensures forall i, j | 0 <= i < j < |segs| :: segs[i].xp <= segs[j].xp && segs[i].yp >= segs[j].yp
    ensures fill ==> |segs| == ry + 1 && forall i | 0 <= i <= ry :: segs[i].yp == ry - i
    ensures !fill ==> segs[0] == Segment(0, ry) && forall i | 0 < i < |segs| :: Touches(segs[i - 1], segs[i])
    ensures forall i | 0 <= i < turn :: NearVertically(rx * rx, ry * ry, segs[i])
    ensures fill ==> forall i | 0 <= i < turn :: Widest(rx * rx, ry * ry, segs[i])
    ensures forall i | turn <= i < |segs| :: NearHorizontally(rx * rx, ry * ry, segs[i], i == turn)
    ensures forall i | turn < i < |segs| :: Chosen(rx * rx, ry * ry, segs[i - 1], segs[i])
    ensures segs[|segs| - 1].xp == rx <==> rx * rx / 4 <= ry * ry * (2 * rx - 1)
    ensures North(rx * rx, ry * ry, segs[turn].xp, segs[turn].yp) > 0
    ensures NearVertically(rx * rx, ry * ry, segs[turn]) <==> !exists x, y :: TurnsFar(rx * rx, ry * ry, x, y)
    ensures exists k: nat :: Stops(rx, ry, k) && segs[turn] == Segment(Rounds(rx, ry, k).xp, Rounds(rx, ry, k).yp)
  {
    hide North, South, NearHorizontally, NearVertically, Chosen, Widest, Touches, TurnsFar, Stops, Rounds, Region2;
    var Asquared, Bsquared := rx * rx, ry * ry;
    ghost var rounds;
    var first, xp, yp, d, dx, dy;
    first, xp, yp, d, dx, dy, rounds := FirstLoop(rx, ry, Asquared, Bsquared, fill);
    turn := |first|;
    NearAtTurn(rx, ry, Asquared, Bsquared, rounds);
    TipMissedExactly(rx, ry, Asquared, Bsquared, rounds);
    Region2Start(rx, ry, Asquared, Bsquared, xp, yp, d, dx, dy);
    d := d + (HalfTowardZero(3 * (Asquared - Bsquared)) - (dx + dy)) / 2;
    segs, xp := SecondLoop(rx, ry, Asquared, Bsquared, fill, first, xp, yp, d, dx, dy);
    assert forall i | 0 <= i < turn :: segs[i] == first[i];
  }
}
