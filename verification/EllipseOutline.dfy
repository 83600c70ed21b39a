/** The outline of an ellipse: two sets of mirrored pixels a round. */
module EllipseOutline {
  import opened Words
  import opened Rects
  import opened Surfaces
  import opened Drawing
  import opened Repaint
  import opened Pixels
  import opened Circle
  import opened Orbit
  import opened LineDrawing
  import opened FilledEllipse

  // ----- the pixels -----

  /** The pixels at a distance of h columns and v rows, in the order they are
      drawn. A distance of zero columns gives each of them twice. */
  function Mirrored(x: int, y: int, h: int, v: int): seq<Point> {
    if v > 0 then [Point(x - h, y + v), Point(x + h, y + v), Point(x - h, y - v), Point(x + h, y - v)]
    else [Point(x - h, y), Point(x + h, y)]
  }

  lemma MirroredHas(x: int, y: int, h: int, v: int, p: Point)
    requires 0 <= h && 0 <= v
    ensures p in Mirrored(x, y, h, v) <==> Abs(p.x - x) == h && Abs(p.y - y) == v
  {
    var m := Mirrored(x, y, h, v);
    if Abs(p.x - x) == h && Abs(p.y - y) == v {
      assert m[0] in m && m[1] in m;
      if v > 0 {
        assert m[2] in m && m[3] in m;
      }
    }
  }

  /** Every round draws, except one whose two rows are a single row that the
      round before has already come to. */
  predicate DrawsIn(rx: nat, ry: nat, n: nat)
    requires LongRadius(rx, ry) > 0
  {
    || Lo(rx, ry, n) != Hi(rx, ry, n)
    || (n > 0 && Lo(rx, ry, n - 1) < Lo(rx, ry, n) == Hi(rx, ry, n) < Hi(rx, ry, n - 1))
  }

  /** A pixel of the outline comes from one round, from the row near the centre
      or from the row near the top. */
  ghost predicate IsOutline(p: Point, x: int, y: int, rx: nat, ry: nat)
    requires LongRadius(rx, ry) > 0
  {
    exists n: nat :: PixelOfRound(p, x, y, rx, ry, n) && DrawsIn(rx, ry, n)
  }

  /** It comes from one of the first n rounds. */
  ghost predicate DrawnBefore(p: Point, x: int, y: int, rx: nat, ry: nat, n: nat)
    requires LongRadius(rx, ry) > 0
  {
    exists m: nat :: m < n && PixelOfRound(p, x, y, rx, ry, m) && DrawsIn(rx, ry, m)
  }

  ghost predicate PixelOfRound(p: Point, x: int, y: int, rx: nat, ry: nat, n: nat)
    requires LongRadius(rx, ry) > 0
  {
    && Reached(LongRadius(rx, ry), n)
    && ((Abs(p.x - x) == HiHalf(rx, ry, n) && Abs(p.y - y) == Hi(rx, ry, n))
        || (Abs(p.x - x) == LoHalf(rx, ry, n) && Abs(p.y - y) == Lo(rx, ry, n)))
  }

  ghost predicate HasPixelInRow(points: seq<Point>, row: int) {
    exists p :: p in points && p.y == row
  }

  /** At least one pixel in each of the rows up to low and from up on. */
  ghost predicate Outlined(points: seq<Point>, y: int, ry: nat, low: int, up: int) {
    forall row :: Abs(row - y) <= low || up <= Abs(row - y) <= ry ==> HasPixelInRow(points, row)
  }

  lemma RoundInBox(rx: nat, ry: nat, n: nat)
    requires rx > 0 && ry > 0 && Reached(LongRadius(rx, ry), n)
    ensures 0 <= Hi(rx, ry, n) <= ry && 0 <= Lo(rx, ry, n) <= ry
    ensures 0 <= HiHalf(rx, ry, n) <= rx && 0 <= LoHalf(rx, ry, n) <= rx
  {
    hide Scaled, Reached, At;
    var r, short := LongRadius(rx, ry), Min(rx, ry);
    PlaceInBox(r, n);
    ScaledEnds(short, r);
    ScaledOrder(0, At(r, n).H(), short, r);
    ScaledOrder(0, At(r, n).I(), short, r);
    ScaledOrder(At(r, n).H(), r, short, r);
    ScaledOrder(At(r, n).I(), r, short, r);
  }

  lemma OutlineInBox(p: Point, x: int, y: int, rx: nat, ry: nat)
    requires rx > 0 && ry > 0 && IsOutline(p, x, y, rx, ry)
    ensures Abs(p.x - x) <= rx && Abs(p.y - y) <= ry
  {
    var n: nat :| PixelOfRound(p, x, y, rx, ry, n);
    RoundInBox(rx, ry, n);
  }

  /** The pixels of one round. */
  function RoundPixels(x: int, y: int, rx: nat, ry: nat, n: nat): seq<Point>
    requires LongRadius(rx, ry) > 0
  {
    Mirrored(x, y, HiHalf(rx, ry, n), Hi(rx, ry, n)) + Mirrored(x, y, LoHalf(rx, ry, n), Lo(rx, ry, n))
  }

  lemma RoundPixelsHas(x: int, y: int, rx: nat, ry: nat, n: nat, p: Point)
    requires rx > 0 && ry > 0 && Reached(LongRadius(rx, ry), n)
    ensures p in RoundPixels(x, y, rx, ry, n) <==> PixelOfRound(p, x, y, rx, ry, n)
  {
    hide Hi, Lo, HiHalf, LoHalf, Mirrored, Reached;
    RoundInBox(rx, ry, n);
    MirroredHas(x, y, HiHalf(rx, ry, n), Hi(rx, ry, n), p);
    MirroredHas(x, y, LoHalf(rx, ry, n), Lo(rx, ry, n), p);
  }

  /** The rows a pixel sequence covers, as the marks oLo and oHi remember them. */
  ghost predicate Tracing(points: seq<Point>, y: int, rx: nat, ry: nat, n: nat, oLo: int, oHi: int)
    requires LongRadius(rx, ry) > 0
  {
    && Reached(LongRadius(rx, ry), n)
    && Outlined(points, y, ry, LoBefore(rx, ry, n), if n == 0 then ry + 1 else Hi(rx, ry, n - 1))
    && (n == 0 ==> oLo == oHi == NOT_YET)
    && (n > 0 ==> forall row :: Abs(row - y) in {oLo, oHi} ==> HasPixelInRow(points, row))
  }

  lemma MoreRows(points: seq<Point>, more: seq<Point>, row: int)
    ensures HasPixelInRow(points + more, row) <==> HasPixelInRow(points, row) || HasPixelInRow(more, row)
  {
    if HasPixelInRow(points, row) {
      var p :| p in points && p.y == row;
      assert p in points + more;
    }
    if HasPixelInRow(more, row) {
      var p :| p in more && p.y == row;
      assert p in points + more;
    }
  }

  /** A round that draws. */
  lemma RoundDrawn(points: seq<Point>, x: int, y: int, rx: nat, ry: nat, n: nat, oLo: int, oHi: int)
    requires rx > 0 && ry > 0 && Tracing(points, y, rx, ry, n, oLo, oHi)
    ensures var all := points + RoundPixels(x, y, rx, ry, n);
            && Outlined(all, y, ry, Lo(rx, ry, n), Hi(rx, ry, n))
            && forall row :: Abs(row - y) in {Lo(rx, ry, n), Hi(rx, ry, n)} ==> HasPixelInRow(all, row)
  {
    hide Hi, Lo, HiHalf, LoHalf, LoBefore, RoundPixels, HasPixelInRow, Reached;
    var round := RoundPixels(x, y, rx, ry, n);
    RowsAdvance(rx, ry, n);
    forall row | Abs(row - y) in {Lo(rx, ry, n), Hi(rx, ry, n)}
      ensures HasPixelInRow(round, row)
    {
      RowOfRoundHasPixel(x, y, rx, ry, n, row);
    }
    forall row
      ensures HasPixelInRow(points + round, row) <==> HasPixelInRow(points, row) || HasPixelInRow(round, row)
    {
      MoreRows(points, round, row);
    }
  }

  /** LoBefore and HiBefore without the special row number. */
  lemma RowsAdvance(rx: nat, ry: nat, n: nat)
    requires rx > 0 && ry > 0 && Reached(LongRadius(rx, ry), n)
    ensures LoBefore(rx, ry, n) <= Lo(rx, ry, n) <= LoBefore(rx, ry, n) + 1
    ensures if n == 0 then Hi(rx, ry, n) == ry else Hi(rx, ry, n - 1) - 1 <= Hi(rx, ry, n) <= Hi(rx, ry, n - 1)
    ensures !Continues(LongRadius(rx, ry), n) ==> Hi(rx, ry, n) <= Lo(rx, ry, n)
  {
    RowsStep(rx, ry, n);
  }

  lemma MirrorOfRound(p: Point, x: int, y: int, rx: nat, ry: nat, n: nat)
    requires LongRadius(rx, ry) > 0
    ensures PixelOfRound(p, x, y, rx, ry, n) == PixelOfRound(Point(2 * x - p.x, p.y), x, y, rx, ry, n)
    ensures PixelOfRound(p, x, y, rx, ry, n) == PixelOfRound(Point(p.x, 2 * y - p.y), x, y, rx, ry, n)
  {
  }

  lemma RowOfRoundHasPixel(x: int, y: int, rx: nat, ry: nat, n: nat, row: int)
    requires rx > 0 && ry > 0 && Reached(LongRadius(rx, ry), n)
    requires Abs(row - y) in {Lo(rx, ry, n), Hi(rx, ry, n)}
    ensures HasPixelInRow(RoundPixels(x, y, rx, ry, n), row)
  {
    hide Hi, Lo, HiHalf, LoHalf, RoundPixels;
    RoundInBox(rx, ry, n);
    var p := Point(x + (if Abs(row - y) == Lo(rx, ry, n) then LoHalf(rx, ry, n) else HiHalf(rx, ry, n)), row);
    RoundPixelsHas(x, y, rx, ry, n, p);
  }

  /** A round that draws nothing: its two rows have been drawn before. */
  lemma RoundSkipped(points: seq<Point>, y: int, rx: nat, ry: nat, n: nat, oLo: int, oHi: int)
    requires rx > 0 && ry > 0 && n > 0 && Tracing(points, y, rx, ry, n, oLo, oHi)
    requires Hi(rx, ry, n) in {oLo, oHi} && Lo(rx, ry, n) in {oLo, oHi, Hi(rx, ry, n)}
    ensures Outlined(points, y, ry, Lo(rx, ry, n), Hi(rx, ry, n))
  {
    hide Hi, Lo, LoBefore, HasPixelInRow, Reached;
    RowsAdvance(rx, ry, n);
  }

  // ----- exactly which rounds draw -----

  /** The marks are rows of the last round that drew: the rows of the round
      before this one are among them and do not go beyond them. */
  predicate Marked(rx: nat, ry: nat, n: nat, oLo: int, oHi: int)
    requires LongRadius(rx, ry) > 0
  {
    Lo(rx, ry, n) in {oLo, oHi} && Hi(rx, ry, n) in {oLo, oHi} && oLo <= Lo(rx, ry, n) && Hi(rx, ry, n) <= oHi
  }

  /** In an ellipse that is not wider than high the pixels of a round depend on
      its two rows only, whichever is called the lower. */
  predicate OnRows(p: Point, x: int, y: int, rx: nat, ry: nat, lo: int, hi: int)
    requires ry > 0
  {
    || (Abs(p.x - x) == Scaled(lo, rx, ry) && Abs(p.y - y) == hi)
    || (Abs(p.x - x) == Scaled(hi, rx, ry) && Abs(p.y - y) == lo)
  }

  lemma RowsGivePixels(p: Point, x: int, y: int, rx: nat, ry: nat, n: nat)
    requires 0 < rx <= ry
    ensures PixelOfRound(p, x, y, rx, ry, n)
       <==> Reached(ry, n) && OnRows(p, x, y, rx, ry, Lo(rx, ry, n), Hi(rx, ry, n))
  {
  }

  /** The pixels behind round n are exactly those of the rounds that draw. */
  ghost predicate Exact(points: seq<Point>, x: int, y: int, rx: nat, ry: nat, n: nat, oLo: int, oHi: int)
    requires LongRadius(rx, ry) > 0
  {
    && Marked(rx, ry, n, oLo, oHi)
    && (forall p :: p in points <==> DrawnBefore(p, x, y, rx, ry, n + 1))
    && (rx <= ry ==> forall p :: OnRows(p, x, y, rx, ry, oLo, oHi) ==> p in points)
  }

  lemma OneRoundMore(p: Point, x: int, y: int, rx: nat, ry: nat, n: nat)
    requires LongRadius(rx, ry) > 0
    ensures DrawnBefore(p, x, y, rx, ry, n + 1)
       <==> DrawnBefore(p, x, y, rx, ry, n) || (PixelOfRound(p, x, y, rx, ry, n) && DrawsIn(rx, ry, n))
    ensures !DrawnBefore(p, x, y, rx, ry, 0)
  {
  }

  /** A round that draws, by the marks, is one that does by its rows. */
  lemma ExactWhenDrawn(points: seq<Point>, x: int, y: int, rx: nat, ry: nat, n: nat, oLo: int, oHi: int)
    requires rx > 0 && ry > 0 && Reached(LongRadius(rx, ry), n)
    requires if n == 0 then points == [] else Exact(points, x, y, rx, ry, n - 1, oLo, oHi)
    requires n == 0 || Lo(rx, ry, n) != Hi(rx, ry, n) || Lo(rx, ry, n) !in {oLo, oHi}
    ensures Exact(points + RoundPixels(x, y, rx, ry, n), x, y, rx, ry, n, Lo(rx, ry, n), Hi(rx, ry, n))
  {
    hide Hi, Lo, HiHalf, LoHalf, RoundPixels, PixelOfRound, DrawnBefore, Reached, OnRows;
    RowsAdvance(rx, ry, n);
    NothingTraced(x, y, rx, ry);
    assert DrawsIn(rx, ry, n);
    forall p
      ensures p in points + RoundPixels(x, y, rx, ry, n) <==> DrawnBefore(p, x, y, rx, ry, n + 1)
      ensures rx <= ry && OnRows(p, x, y, rx, ry, Lo(rx, ry, n), Hi(rx, ry, n)) ==>
        p in points + RoundPixels(x, y, rx, ry, n)
    {
      OneRoundMore(p, x, y, rx, ry, n);
      RoundPixelsHas(x, y, rx, ry, n, p);
      if rx <= ry {
        RowsGivePixels(p, x, y, rx, ry, n);
      }
    }
  }

  /** A round that draws nothing, by the marks: its pixels have been drawn, or it
      is one that does not draw. */
  lemma ExactWhenSkipped(points: seq<Point>, x: int, y: int, rx: nat, ry: nat, n: nat, oLo: int, oHi: int)
    requires rx > 0 && ry > 0 && n > 0 && Reached(LongRadius(rx, ry), n)
    requires Exact(points, x, y, rx, ry, n - 1, oLo, oHi)
    requires Hi(rx, ry, n) in {oLo, oHi} && Lo(rx, ry, n) in {oLo, oHi}
    requires rx > ry ==> Lo(rx, ry, n) == Hi(rx, ry, n)
    ensures Exact(points, x, y, rx, ry, n, oLo, oHi)
  {
    hide Hi, Lo, HiHalf, LoHalf, PixelOfRound, DrawnBefore, Reached, OnRows;
    RowsAdvance(rx, ry, n);
    forall p
      ensures p in points <==> DrawnBefore(p, x, y, rx, ry, n + 1)
    {
      OneRoundMore(p, x, y, rx, ry, n);
      if DrawsIn(rx, ry, n) {
        RowsGivePixels(p, x, y, rx, ry, n);
        EitherOrder(p, x, y, rx, ry, oLo, oHi);
      }
    }
  }

  lemma EitherOrder(p: Point, x: int, y: int, rx: nat, ry: nat, lo: int, hi: int)
    requires ry > 0
    ensures OnRows(p, x, y, rx, ry, lo, hi) == OnRows(p, x, y, rx, ry, hi, lo)
  {
  }

  // ----- from round to round -----

  /** What the loops know in front of round n. */
  ghost predicate Begun(points: seq<Point>, x: int, y: int, rx: nat, ry: nat, n: nat, oLo: int, oHi: int)
    requires LongRadius(rx, ry) > 0
  {
    && Tracing(points, y, rx, ry, n, oLo, oHi)
    && if n == 0 then points == [] else Exact(points, x, y, rx, ry, n - 1, oLo, oHi)
  }

  /** What they know behind it. */
  ghost predicate Done(points: seq<Point>, x: int, y: int, rx: nat, ry: nat, n: nat, oLo: int, oHi: int)
    requires LongRadius(rx, ry) > 0
  {
    && Reached(LongRadius(rx, ry), n)
    && Exact(points, x, y, rx, ry, n, oLo, oHi)
    && Outlined(points, y, ry, Lo(rx, ry, n), Hi(rx, ry, n))
    && forall row :: Abs(row - y) in {oLo, oHi} ==> HasPixelInRow(points, row)
  }

  lemma DrawRound(points: seq<Point>, x: int, y: int, rx: nat, ry: nat, n: nat, oLo: int, oHi: int)
    requires rx > 0 && ry > 0 && Begun(points, x, y, rx, ry, n, oLo, oHi)
    requires n == 0 || Lo(rx, ry, n) != Hi(rx, ry, n) || Lo(rx, ry, n) !in {oLo, oHi}
    ensures Done(points + RoundPixels(x, y, rx, ry, n), x, y, rx, ry, n, Lo(rx, ry, n), Hi(rx, ry, n))
  {
    hide Lo, Hi, RoundPixels, Exact, Outlined, HasPixelInRow;
    RoundDrawn(points, x, y, rx, ry, n, oLo, oHi);
    ExactWhenDrawn(points, x, y, rx, ry, n, oLo, oHi);
  }

  lemma SkipRound(points: seq<Point>, x: int, y: int, rx: nat, ry: nat, n: nat, oLo: int, oHi: int)
    requires rx > 0 && ry > 0 && n > 0 && Begun(points, x, y, rx, ry, n, oLo, oHi)
    requires Hi(rx, ry, n) in {oLo, oHi} && Lo(rx, ry, n) in {oLo, oHi}
    requires rx > ry ==> Lo(rx, ry, n) == Hi(rx, ry, n)
    ensures Done(points, x, y, rx, ry, n, oLo, oHi)
  {
    hide Lo, Hi, Exact, Outlined, HasPixelInRow;
    RoundSkipped(points, y, rx, ry, n, oLo, oHi);
    ExactWhenSkipped(points, x, y, rx, ry, n, oLo, oHi);
  }

  lemma RoundsGoOn(points: seq<Point>, x: int, y: int, rx: nat, ry: nat, n: nat, oLo: int, oHi: int)
    requires rx > 0 && ry > 0 && Done(points, x, y, rx, ry, n, oLo, oHi)
    ensures Continues(LongRadius(rx, ry), n) ==> Begun(points, x, y, rx, ry, n + 1, oLo, oHi)
    ensures !Continues(LongRadius(rx, ry), n) ==> WholeOutline(points, x, y, rx, ry)
    ensures n <= 2 * LongRadius(rx, ry)
  {
    hide Lo, Hi, LoHalf, HiHalf, HasPixelInRow, DrawnBefore, IsOutline;
    RowsAdvance(rx, ry, n);
    LoopEnds(LongRadius(rx, ry), n);
    if !Continues(LongRadius(rx, ry), n) {
      forall p
        ensures DrawnBefore(p, x, y, rx, ry, n + 1) <==> IsOutline(p, x, y, rx, ry)
      {
        AllRounds(p, x, y, rx, ry, n);
      }
    }
  }

  lemma AllRounds(p: Point, x: int, y: int, rx: nat, ry: nat, n: nat)
    requires LongRadius(rx, ry) > 0 && !Continues(LongRadius(rx, ry), n)
    ensures DrawnBefore(p, x, y, rx, ry, n + 1) <==> IsOutline(p, x, y, rx, ry)
  {
  }

  /** Exactly the outline pixels, with at least one in every row. */
  ghost predicate WholeOutline(points: seq<Point>, x: int, y: int, rx: nat, ry: nat)
    requires LongRadius(rx, ry) > 0
  {
    && (forall p :: p in points <==> IsOutline(p, x, y, rx, ry))
    && (forall row :: Abs(row - y) <= ry ==> HasPixelInRow(points, row))
  }

  /** The outline is symmetric about the centre, both ways. */
  lemma OutlineIsSymmetric(p: Point, x: int, y: int, rx: nat, ry: nat)
    requires LongRadius(rx, ry) > 0 && IsOutline(p, x, y, rx, ry)
    ensures IsOutline(Point(2 * x - p.x, p.y), x, y, rx, ry) && IsOutline(Point(p.x, 2 * y - p.y), x, y, rx, ry)
  {
    hide PixelOfRound, DrawsIn;
    var n: nat :| PixelOfRound(p, x, y, rx, ry, n) && DrawsIn(rx, ry, n);
    MirrorOfRound(p, x, y, rx, ry, n);
  }

  lemma NothingTraced(x: int, y: int, rx: nat, ry: nat)
    requires rx > 0 && ry > 0
    ensures Begun([], x, y, rx, ry, 0, NOT_YET, NOT_YET)
    ensures At(LongRadius(rx, ry), 0) == Place(0, LongRadius(rx, ry) * 64)
    ensures Lo(rx, ry, 0) == 0 && Hi(rx, ry, 0) == ry
  {
    RowsStep(rx, ry, 0);
  }

  // ----- the loops -----

  /** The first round draws the top pixel as its own mirror image. */
  predicate TopTwice(points: seq<Point>, x: int, y: int, ry: nat) {
    |points| > 1 && points[0] == points[1] == Point(x, y + ry)
  }

  lemma FirstPixels(points: seq<Point>, x: int, y: int, rx: nat, ry: nat, n: nat)
    requires rx > 0 && ry > 0 && if n == 0 then points == [] else TopTwice(points, x, y, ry)
    ensures TopTwice(points + RoundPixels(x, y, rx, ry, n), x, y, ry)
  {
    RowsStart(rx, ry);
  }

  /** What the variables of round n are, and those of the next one. */
  lemma WideRound(x: int, y: int, rx: nat, ry: nat, n: nat, ix: int, iy: int, h: int, i: int, j: int, k: int)
    requires 0 < ry < rx && At(rx, n) == Place(ix, iy)
    requires h == (ix + 32) / 64 && i == (iy + 32) / 64 && j == h * ry / rx && k == i * ry / rx
    ensures Lo(rx, ry, n) == j && Hi(rx, ry, n) == k
    ensures RoundPixels(x, y, rx, ry, n) == Mirrored(x, y, h, k) + Mirrored(x, y, i, j)
    ensures Continues(rx, n) <==> i > h
    ensures At(rx, n + 1) == Place(ix + iy / rx, iy - (ix + iy / rx) / rx)
  {
    hide At, Mirrored;
    FromPlaceToPlace(rx, n);
  }

  lemma TallRound(x: int, y: int, rx: nat, ry: nat, n: nat, ix: int, iy: int, h: int, i: int, j: int, k: int)
    requires 0 < rx <= ry && At(ry, n) == Place(ix, iy)
    requires h == (ix + 32) / 64 && i == (iy + 32) / 64 && j == h * rx / ry && k == i * rx / ry
    ensures Lo(rx, ry, n) == h && Hi(rx, ry, n) == i
    ensures RoundPixels(x, y, rx, ry, n) == Mirrored(x, y, j, i) + Mirrored(x, y, k, h)
    ensures Continues(ry, n) <==> i > h
    ensures At(ry, n + 1) == Place(ix + iy / ry, iy - (ix + iy / ry) / ry)
  {
    hide At, Mirrored;
    FromPlaceToPlace(ry, n);
  }

  /** The loop for ellipses wider than high. */
  method WideOutline(x: int, y: int, rx: nat, ry: nat) returns (points: seq<Point>)
    requires 0 < ry < rx
    ensures WholeOutline(points, x, y, rx, ry) && TopTwice(points, x, y, ry)
  {
    hide Begun, Done, WholeOutline, HasPixelInRow, Mirrored, RoundPixels, TopTwice, At, Lo, Hi, Reached, Continues;
    points := [];
    var oj, ok := NOT_YET, NOT_YET;
    var ix, iy := 0, rx * 64;
    ghost var n := 0;
    NothingTraced(x, y, rx, ry);
    while true
      invariant 0 <= n && Place(ix, iy) == At(rx, n)
      invariant Begun(points, x, y, rx, ry, n, oj, ok)
      invariant if n == 0 then points == [] else TopTwice(points, x, y, ry)
      decreases 2 * rx + 1 - n
    {
      var h, i := (ix + 32) / 64, (iy + 32) / 64;
      var j, k := h * ry / rx, i * ry / rx;
      MarksAreRows(points, x, y, rx, ry, n, oj, ok);
      WideRound(x, y, rx, ry, n, ix, iy, h, i, j, k);
      if (ok != k && oj != k) || (oj != j && ok != j) || k != j {
        DrawRound(points, x, y, rx, ry, n, oj, ok);
        FirstPixels(points, x, y, rx, ry, n);
        points := points + (Mirrored(x, y, h, k) + Mirrored(x, y, i, j));
        ok := k;
        oj := j;
      } else {
        SkipRound(points, x, y, rx, ry, n, oj, ok);
      }
      RoundsGoOn(points, x, y, rx, ry, n, oj, ok);
      ix := ix + iy / rx;
      iy := iy - ix / rx;
      if !(i > h) {
        break;
      }
      n := n + 1;
    }
  }

  lemma MarksAreRows(points: seq<Point>, x: int, y: int, rx: nat, ry: nat, n: nat, oLo: int, oHi: int)
    requires rx > 0 && ry > 0 && Begun(points, x, y, rx, ry, n, oLo, oHi)
    ensures Reached(LongRadius(rx, ry), n)
    ensures n == 0 ==> oLo == oHi == NOT_YET && Lo(rx, ry, n) == 0 && Hi(rx, ry, n) == ry
  {
    RowsStep(rx, ry, 0);
  }

  /** The loop for the other ellipses. */
  method TallOutline(x: int, y: int, rx: nat, ry: nat) returns (points: seq<Point>)
    requires 0 < rx <= ry
    ensures WholeOutline(points, x, y, rx, ry) && TopTwice(points, x, y, ry)
  {
    hide Begun, Done, WholeOutline, HasPixelInRow, Mirrored, RoundPixels, TopTwice, At, Lo, Hi, Reached, Continues;
    points := [];
    var oh, oi := NOT_YET, NOT_YET;
    var ix, iy := 0, ry * 64;
    ghost var n := 0;
    NothingTraced(x, y, rx, ry);
    while true
      invariant 0 <= n && Place(ix, iy) == At(ry, n)
      invariant Begun(points, x, y, rx, ry, n, oh, oi)
      invariant if n == 0 then points == [] else TopTwice(points, x, y, ry)
      decreases 2 * ry + 1 - n
    {
      var h, i := (ix + 32) / 64, (iy + 32) / 64;
      var j, k := h * rx / ry, i * rx / ry;
      MarksAreRows(points, x, y, rx, ry, n, oh, oi);
      TallRound(x, y, rx, ry, n, ix, iy, h, i, j, k);
      if (oi != i && oh != i) || (oh != h && oi != h && i != h) {
        DrawRound(points, x, y, rx, ry, n, oh, oi);
        FirstPixels(points, x, y, rx, ry, n);
        points := points + (Mirrored(x, y, j, i) + Mirrored(x, y, k, h));
        oi := i;
        oh := h;
      } else {
        SkipRound(points, x, y, rx, ry, n, oh, oi);
      }
      RoundsGoOn(points, x, y, rx, ry, n, oh, oi);
      ix := ix + iy / ry;
      iy := iy - ix / ry;
      if !(i > h) {
        break;
      }
      n := n + 1;
    }
  }

  // ----- EllipseColor -----

  predicate CutByClip(clip: Rect, x: int, y: int, rx: int, ry: int) {
    x - rx < clip.x || x + rx > clip.x + clip.w - 1 || y - ry < clip.y || y + ry > clip.y + clip.h - 1
  }

  /** The pixels are tested exactly if the bounding box does not lie in the clip
      rectangle; untested, all of them are in it. */
  lemma TestedWhenCut(clip: Rect, x: int, y: int, rx: nat, ry: nat)
    requires rx > 0 && ry > 0
    ensures CutByClip(clip, x, y, rx, ry) <==> !Rect(x - rx, y - ry, 2 * rx + 1, 2 * ry + 1).Inside(clip)
    ensures !CutByClip(clip, x, y, rx, ry) ==> forall p :: IsOutline(p, x, y, rx, ry) ==> clip.Has(p.x, p.y)
  {
    hide IsOutline;
    forall p | IsOutline(p, x, y, rx, ry)
      ensures Abs(p.x - x) <= rx && Abs(p.y - y) <= ry
    {
      OutlineInBox(p, x, y, rx, ry);
    }
  }

  lemma TopIsBlendedTwice(points: seq<Point>, x: int, y: int, ry: nat)
    requires TopTwice(points, x, y, ry)
    ensures multiset(points)[Point(x, y + ry)] >= 2
  {
    assert points == [points[0]] + ([points[1]] + points[2..]);
  }

  /** The outline of an ellipse that is out of sight has no pixel in the clip
      rectangle. */
  lemma OutOfSightHasNoOutline(clip: Rect, x: int, y: int, rx: nat, ry: nat, p: Point)
    requires rx > 0 && ry > 0 && clip.w > 0 && clip.h > 0
    requires FilledEllipse.OutcomeFor(clip, x, y, rx, ry).OutOfSight? && IsOutline(p, x, y, rx, ry)
    ensures !clip.Has(p.x, p.y)
  {
    hide IsOutline;
    OutlineInBox(p, x, y, rx, ry);
  }

  /** EllipseColor. A radius of zero gives a line inside the clip rectangle. Of
      every other ellipse the top pixel is painted more than once, which shows
      when the colour is translucent. */
  method EllipseColor(surface: Surface, x: int, y: int, rx: int, ry: int, color: Word)
    returns (outcome: Outcome, points: seq<Point>)
    requires surface.Valid() && (rx == 0 || ry == 0 ==> surface.ClipFits())
    modifies surface.data
    ensures surface.Valid() && outcome == FilledEllipse.OutcomeFor(surface.clip.Value(), x, y, rx, ry)
    ensures if outcome.Drawn? && rx > 0 && ry > 0 then WholeOutline(points, x, y, rx, ry) && TopTwice(points, x, y, ry)
            else points == []
    ensures outcome.Drawn? && (rx == 0 || ry == 0) ==>
      Painted(FillPaint(color), old(surface.Content()), surface.Content(),
              Box(Rect(x - rx, y - ry, 2 * rx + 1, 2 * ry + 1)) * Box(surface.clip.Value()))
    ensures !(outcome.Drawn? && (rx == 0 || ry == 0)) ==>
      Repainted(PixelPaint(color, surface.format.kind), old(surface.Content()), surface.Content(), points,
                surface.clip.Value(), CutByClip(surface.clip.Value(), x, y, rx, ry))
    ensures var clip, top := surface.clip.Value(), Point(x, y + ry);
            points != [] && PassesClip(clip, CutByClip(clip, x, y, rx, ry), top) ==>
              Visits(points, clip, CutByClip(clip, x, y, rx, ry), top) >= 2
  {
    hide WholeOutline, Repainted, Painted, PixelPaint, FillPaint;
    var clip := surface.clip.Value();
    outcome := FilledEllipse.OutcomeFor(clip, x, y, rx, ry);
    var f, clipFlag := PixelPaint(color, surface.format.kind), CutByClip(clip, x, y, rx, ry);
    points := [];
    if !outcome.Drawn? {
      NothingRepainted(f, surface.Content(), clip, clipFlag);
    } else if rx == 0 {
      VLineColor(surface, x, y - ry, y + ry, color);
      assert DrawnColumn(x, y - ry, y + ry, color) == Rect(x, y - ry, 1, 2 * ry + 1);
    } else if ry == 0 {
      HLineColor(surface, Span(x - rx, x + rx, y), color);
      assert Line(DrawnSpan(Span(x - rx, x + rx, y), color)) == Box(Rect(x - rx, y, 2 * rx + 1, 1));
    } else {
      if rx > ry {
        points := WideOutline(x, y, rx, ry);
      } else {
        points := TallOutline(x, y, rx, ry);
      }
      DrawRepeatedly(surface, points, f, clipFlag);
      TopIsBlendedTwice(points, x, y, ry);
    }
  }
}
