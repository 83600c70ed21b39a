/** The recurrence behind the ellipse functions: an eighth of a turn around a
    circle of radius 64 * r, in integers. */
module Orbit {
  import opened Arithmetic

  datatype Place = Place(ix: int, iy: int) {
    function H(): int { (ix + 32) / 64 }

    function I(): int { (iy + 32) / 64 }
  }

  function Turn(p: Place, r: nat): Place
    requires r > 0
  {
    var ix := p.ix + p.iy / r;
    Place(ix, p.iy - ix / r)
  }

  /** Where the variables stand at the start of round n. */
  function At(r: nat, n: nat): Place
    requires r > 0
  {
    if n == 0 then Place(0, r * 64) else Turn(At(r, n - 1), r)
  }

  /** The loop condition, evaluated at the end of round n. */
  predicate Continues(r: nat, n: nat)
    requires r > 0
  {
    At(r, n).I() > At(r, n).H()
  }

  /** Round n takes place. */
  ghost predicate Reached(r: nat, n: nat)
    requires r > 0
  {
    forall m: nat :: m < n ==> Continues(r, m)
  }

  // ----- bounds and termination -----

  predicate Quadrant(p: Place, r: nat) {
    0 <= p.ix && p.iy <= 64 * r
  }

  lemma StepBounds(y: int, r: nat)
    requires r > 0 && 32 * r <= y <= 64 * r
    ensures 32 <= y / r <= 64
  {
    if y / r < 32 {
      NextMultiple(y / r, 32, r);
    } else if y / r > 64 {
      NextMultiple(64, y / r, r);
    }
  }

  /** While the loop goes on, the sum of the variables has not gone below its
      start, so iy is above half of it and ix grows by 32 or more. */
  lemma {:induction false} SumHolds(r: nat, n: nat)
    requires r > 0 && Reached(r, n)
    ensures Quadrant(At(r, n), r) && At(r, n).ix >= 32 * n
    ensures Continues(r, n) ==> At(r, n).ix + At(r, n).iy >= 64 * r && At(r, n).iy > 32 * r
    ensures Continues(r, n) ==> At(r, n).ix < At(r, n).iy && 32 <= At(r, n).iy / r <= 64
  {
    if n > 0 {
      assert Continues(r, n - 1);
      SumHolds(r, n - 1);
      FromPlaceToPlace(r, n - 1);
      SumOfTurn(At(r, n - 1), r);
    }
    if Continues(r, n) {
      HeightStays(At(r, n), r);
    }
  }

  lemma SumOfTurn(p: Place, r: nat)
    requires r > 0 && 0 <= p.ix && p.iy <= 64 * r && p.ix + p.iy >= 64 * r && 32 <= p.iy / r <= 64
    ensures p.ix + 32 <= Turn(p, r).ix && Turn(p, r).iy <= 64 * r
    ensures Turn(p, r).I() > Turn(p, r).H() ==> Turn(p, r).ix + Turn(p, r).iy >= 64 * r
  {
    var q := Turn(p, r);
    QuotientOrder(0, q.ix, r);
    if q.I() > q.H() {
      QuotientOrder(q.ix, p.iy, r);
    }
  }

  lemma HeightStays(p: Place, r: nat)
    requires r > 0 && 0 <= p.ix && p.iy <= 64 * r && p.ix + p.iy >= 64 * r && p.I() > p.H()
    ensures p.ix < p.iy && p.iy > 32 * r && 32 <= p.iy / r <= 64
  {
    StepBounds(p.iy, r);
  }

  /** The loop ends after at most 2 * r + 1 rounds. */
  lemma LoopEnds(r: nat, n: nat)
    requires r > 0 && Reached(r, n)
    ensures n <= 2 * r
  {
    if n > 0 {
      assert Continues(r, n - 1);
      SumHolds(r, n - 1);
    }
  }

  // ----- one pixel at a time -----

  /** How far the point has come around, on a scale that grows by less than
      128 * r a round. */
  function Progress(p: Place, r: nat): int {
    128 * (p.iy * r) + p.ix * p.ix
  }

  lemma ProgressStep(p: Place, r: nat)
    requires r > 0 && 0 <= p.ix && 0 <= p.iy / r <= 64
    ensures Progress(Turn(p, r), r) <= Progress(p, r) + 128 * r
  {
    hide Progress, Turn;
    var d := p.iy / r;
    var x := p.ix + d;
    TurnedProgress(p, r);
    Remainder(x, r);
    LessProduct(p.ix, d, 64);
    LessProduct(d, d, 64);
    NetProgress(p.iy * r, x / r * r, p.ix * p.ix, p.ix * d, d * d, p.ix, d, x % r, r);
  }

  lemma TurnedProgress(p: Place, r: nat)
    requires r > 0
    ensures var d := p.iy / r;
            && Progress(p, r) == 128 * (p.iy * r) + p.ix * p.ix
            && Progress(Turn(p, r), r)
                 == 128 * (p.iy * r - (p.ix + d) / r * r) + (p.ix * p.ix + 2 * (p.ix * d) + d * d)
  {
    var d := p.iy / r;
    Distribute(p.iy, (p.ix + d) / r, r);
    SquareOfSum(p.ix, d);
  }

  lemma Remainder(x: int, r: nat)
    requires r > 0
    ensures x == x / r * r + x % r && 0 <= x % r < r
  {
  }

  /** What a turn adds, with the products as they are. */
  lemma NetProgress(height: int, fall: int, square: int, mixed: int, dd: int, ix: int, d: nat, rest: int, r: int)
    requires ix + d == fall + rest && rest < r && mixed <= 64 * ix && dd <= 64 * d
    ensures 128 * (height - fall) + (square + 2 * mixed + dd) <= 128 * height + square + 128 * r
  {
  }

  lemma {:induction false} ProgressIsSlow(r: nat, n: nat)
    requires r > 0 && Reached(r, n)
    ensures Progress(At(r, n), r) <= 8192 * (r * r) + 128 * (n * r)
  {
    if n > 0 {
      assert Continues(r, n - 1);
      SumHolds(r, n - 1);
      ProgressIsSlow(r, n - 1);
      ProgressStep(At(r, n - 1), r);
      Distribute(n, 1, r);
    }
  }

  lemma IxStaysSmall(p: Place, r: nat, n: nat)
    requires r > 0 && n <= 2 * r && 0 <= p.ix < p.iy && Progress(p, r) <= 8192 * (r * r) + 128 * (n * r)
    ensures p.ix < 48 * r
  {
    var x := 48 * r;
    LessProduct(r, n, 2 * r);
    assert r * (2 * r) == 2 * (r * r);
    assert r * (x + 1) == 48 * (r * r) + r;
    assert x * x == 2304 * (r * r);
    if p.ix >= x {
      SquareMonotone(x, p.ix);
      LessProduct(r, x + 1, p.iy);
      TooFar(r * p.iy, p.ix * p.ix, r * r, n * r, r);
    }
  }

  lemma TooFar(a: int, b: int, s: int, m: int, r: nat)
    requires r > 0 && a >= 48 * s + r && b >= 2304 * s && m <= 2 * s
    ensures 128 * a + b > 8192 * s + 128 * m
  {
  }

  lemma NextIxStaysSmall(r: nat, n: nat)
    requires r > 0 && Reached(r, n) && Continues(r, n)
    ensures 0 <= At(r, n + 1).ix < 65 * r
  {
    hide Progress, Reached;
    SumHolds(r, n);
    if r < 4 {
      SmallRadii(r, n);
    } else {
      LoopEnds(r, n);
      ProgressIsSlow(r, n);
      IxStaysSmall(At(r, n), r, n);
    }
  }

  lemma FromPlaceToPlace(r: nat, n: nat)
    requires r > 0
    ensures At(r, 0) == Place(0, r * 64) && At(r, n + 1) == Turn(At(r, n), r)
  {
  }

  lemma FirstPlaces()
    ensures At(1, 1) == Place(64, 0)
    ensures At(2, 1) == Place(64, 96) && At(2, 2) == Place(112, 40)
    ensures At(3, 1) == Place(64, 171) && At(3, 2) == Place(121, 131)
  {
    hide At;
    FromPlaceToPlace(1, 0);
    FromPlaceToPlace(2, 0);
    FromPlaceToPlace(2, 1);
    FromPlaceToPlace(3, 0);
    FromPlaceToPlace(3, 1);
  }

  /** The radii for which the general bound is too coarse. */
  lemma SmallRadii(r: nat, n: nat)
    requires 0 < r < 4 && Reached(r, n) && Continues(r, n)
    ensures At(r, n + 1).ix < 65 * r
  {
    hide At;
    FirstPlaces();
    assert r == 1 ==> !Continues(1, 1);
    assert r == 2 ==> !Continues(2, 2);
    assert r == 3 ==> !Continues(3, 2);
  }

  /** From one round to the next each of the two pixel coordinates moves by one
      or not at all. */
  lemma OnePixelAtATime(r: nat, n: nat)
    requires r > 0 && Reached(r, n) && Continues(r, n)
    ensures Reached(r, n + 1)
    ensures At(r, n).H() <= At(r, n + 1).H() <= At(r, n).H() + 1
    ensures At(r, n).I() - 1 <= At(r, n + 1).I() <= At(r, n).I()
  {
    SumHolds(r, n);
    NextIxStaysSmall(r, n);
    QuotientOrder(0, At(r, n + 1).ix, r);
    QuotientBelow(At(r, n + 1).ix, 65, r);
  }

  // ----- how round it is -----

  /** What the recurrence would keep without truncation: at radius 64 * r this
      is r times the square of the distance from the centre, up to a term that
      is small next to it. */
  function Roundness(p: Place, r: nat): int {
    r * (p.ix * p.ix) + r * (p.iy * p.iy) + p.ix * p.iy
  }

  /** Truncation changes it by a remainder times twice a coordinate. */
  lemma RoundnessStep(p: Place, r: nat)
    requires r > 0
    ensures var d, q := p.iy / r, Turn(p, r);
            Roundness(q, r) == Roundness(p, r) - (p.iy % r) * (2 * p.ix + d) + (q.ix % r) * (2 * p.iy - q.ix / r)
  {
    var x, y, d := p.ix, p.iy, p.iy / r;
    var x' := x + d;
    var e := x' / r;
    FirstHalf(x, y, d, p.iy % r, r);
    SecondHalf(x', y, e, x' % r, r);
  }

  lemma FirstHalf(x: int, y: int, d: int, r1: int, r: int)
    requires y == d * r + r1
    ensures r * ((x + d) * (x + d)) + r * (y * y) - (x + d) * y == r * (x * x) + r * (y * y) + x * y - r1 * (2 * x + d)
  {
    assert r * ((x + d) * (x + d)) == r * (x * x) + (d * r) * (2 * x + d);
    assert (d * r) * (2 * x + d) == y * (2 * x + d) - r1 * (2 * x + d);
    assert y * (2 * x + d) == x * y + (x + d) * y;
  }

  lemma SecondHalf(x: int, y: int, e: int, r2: int, r: int)
    requires x == e * r + r2
    ensures r * (x * x) + r * ((y - e) * (y - e)) + x * (y - e) == r * (x * x) + r * (y * y) - x * y + r2 * (2 * y - e)
  {
    assert r * ((y - e) * (y - e)) == r * (y * y) - (e * r) * (2 * y - e);
    assert (e * r) * (2 * y - e) == x * (2 * y - e) - r2 * (2 * y - e);
    assert x * (2 * y - e) == x * y + x * (y - e);
  }

  function Slack(r: nat): nat {
    LessProduct(r, 0, r);
    128 * (r * r) + 64 * r
  }

  /** Every round changes it by the slack at most. */
  lemma {:induction false} StaysRound(r: nat, n: nat)
    requires r > 0 && Reached(r, n)
    ensures 4096 * (r * (r * r)) - n * Slack(r) <= Roundness(At(r, n), r) <= 4096 * (r * (r * r)) + n * Slack(r)
  {
    hide Roundness, Slack;
    if n > 0 {
      assert Continues(r, n - 1);
      StaysRound(r, n - 1);
      RoundnessRound(r, n - 1);
      Distribute(n, 1, Slack(r));
    } else {
      StartsRound(r);
    }
  }

  lemma StartsRound(r: nat)
    ensures Roundness(Place(0, r * 64), r) == 4096 * (r * (r * r))
  {
    assert r * ((r * 64) * (r * 64)) == 4096 * (r * (r * r));
  }

  lemma RoundnessRound(r: nat, n: nat)
    requires r > 0 && Reached(r, n) && Continues(r, n)
    ensures Roundness(At(r, n), r) - Slack(r) <= Roundness(At(r, n + 1), r) <= Roundness(At(r, n), r) + Slack(r)
  {
    hide At, Roundness, Slack, Reached;
    SumHolds(r, n);
    NextIxStaysSmall(r, n);
    FromPlaceToPlace(r, n);
    var p, q := At(r, n), At(r, n + 1);
    RoundnessStep(p, r);
    TruncationIsSmall(p.iy % r, 2 * p.ix + p.iy / r, r);
    QuotientOrder(0, q.ix, r);
    QuotientBelow(q.ix, 65, r);
    TruncationIsSmall(q.ix % r, 2 * p.iy - q.ix / r, r);
  }

  lemma TruncationIsSmall(m: nat, w: int, r: nat)
    requires m < r && 0 <= w <= 128 * r + 64
    ensures 0 <= m * w <= Slack(r)
  {
    LessProduct(w, m, r);
    LessProduct(r, w, 128 * r + 64);
  }

  /** At every point of a run the squared distance is that of the circle up to a
      sixteenth of it and a remainder. */
  lemma RunStaysRound(r: nat, n: nat)
    requires r > 0 && Reached(r, n)
    ensures -256 * (r * (r * r)) - 128 * (r * r) <= Roundness(At(r, n), r) - 4096 * (r * (r * r))
         <= 256 * (r * (r * r)) + 128 * (r * r)
  {
    hide Roundness, At;
    LoopEnds(r, n);
    StaysRound(r, n);
    LessProduct(Slack(r), n, 2 * r);
    SlackOfRun(r);
  }

  lemma SlackOfRun(r: nat)
    ensures Slack(r) * (2 * r) == 256 * (r * (r * r)) + 128 * (r * r)
  {
    assert 128 * (r * r) * (2 * r) == 256 * (r * (r * r));
    assert 64 * r * (2 * r) == 128 * (r * r);
    Distribute(128 * (r * r), 64 * r, 2 * r);
  }
}
