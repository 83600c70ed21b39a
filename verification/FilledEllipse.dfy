/** The filled ellipse: rows from the top and bottom inward and from the centre
    outward, until they meet. */
module FilledEllipse {
  import opened Arithmetic
  import opened Words
  import opened Rects
  import opened Surfaces
  import opened Drawing
  import opened SpanRows
  import opened Circle
  import opened Orbit
  import opened LineDrawing

  // ----- which rows a round looks at -----

  /** The distance scaled from the longer to the shorter radius. */
  function Scaled(v: int, short: nat, long: nat): int
    requires long > 0
  {
    v * short / long
  }

  function LongRadius(rx: nat, ry: nat): nat {
    if rx > ry then rx else ry
  }

  /** The row near the centre, and the row near the top, of round n. */
  function Lo(rx: nat, ry: nat, n: nat): int
    requires LongRadius(rx, ry) > 0
  {
    var h := At(LongRadius(rx, ry), n).H();
    if rx > ry then Scaled(h, ry, rx) else h
  }

  function Hi(rx: nat, ry: nat, n: nat): int
    requires LongRadius(rx, ry) > 0
  {
    var i := At(LongRadius(rx, ry), n).I();
    if rx > ry then Scaled(i, ry, rx) else i
  }

  /** Half the width of each of them. */
  function LoHalf(rx: nat, ry: nat, n: nat): int
    requires LongRadius(rx, ry) > 0
  {
    var i := At(LongRadius(rx, ry), n).I();
    if rx > ry then i else Scaled(i, rx, ry)
  }

  function HiHalf(rx: nat, ry: nat, n: nat): int
    requires LongRadius(rx, ry) > 0
  {
    var h := At(LongRadius(rx, ry), n).H();
    if rx > ry then h else Scaled(h, rx, ry)
  }

  /** The rows of the round before; in front of the first round the rows beside
      all rows to come. No row is drawn that has the number 0xffff from the
      start: the loop takes it for one it has just drawn. */
  function LoBefore(rx: nat, ry: nat, n: nat): int
    requires LongRadius(rx, ry) > 0
  {
    if n == 0 then -1 else Lo(rx, ry, n - 1)
  }

  function HiBefore(rx: nat, ry: nat, n: nat): int
    requires LongRadius(rx, ry) > 0
  {
    if n == 0 then Top(ry) + 1 else Hi(rx, ry, n - 1)
  }

  const NOT_YET := 0xffff

  function Top(ry: nat): int {
    if ry == NOT_YET then ry - 1 else ry
  }

  lemma ScaledStep(v: int, short: nat, long: nat)
    requires 0 < short <= long
    ensures Scaled(v, short, long) <= Scaled(v + 1, short, long) <= Scaled(v, short, long) + 1
  {
    Distribute(v, 1, short);
    QuotientGrows(v * short, short, long);
  }

  lemma ScaledOrder(v: int, w: int, short: nat, long: nat)
    requires v <= w && 0 < long
    ensures Scaled(v, short, long) <= Scaled(w, short, long)
  {
    LessProduct(short, 0, w - v);
    Distribute(w, v, short);
    QuotientOrder(v * short, w * short, long);
  }

  lemma ScaledEnds(short: nat, long: nat)
    requires 0 < long
    ensures Scaled(0, short, long) == 0 && Scaled(long, short, long) == short
  {
    DivModUnique(long * short, long, short, 0);
  }

  lemma RowsOfOneRound(rx: nat, ry: nat, n: nat)
    requires LongRadius(rx, ry) > 0
    ensures if Continues(LongRadius(rx, ry), n)
            then Lo(rx, ry, n) <= Hi(rx, ry, n) && HiHalf(rx, ry, n) <= LoHalf(rx, ry, n)
            else Hi(rx, ry, n) <= Lo(rx, ry, n) && LoHalf(rx, ry, n) <= HiHalf(rx, ry, n)
  {
    hide Scaled, At;
    var r, short := LongRadius(rx, ry), Min(rx, ry);
    var p := At(r, n);
    if p.I() > p.H() {
      ScaledOrder(p.H(), p.I(), short, r);
    } else {
      ScaledOrder(p.I(), p.H(), short, r);
    }
  }

  lemma RowsStart(rx: nat, ry: nat)
    requires rx > 0 && ry > 0
    ensures Lo(rx, ry, 0) == 0 && Hi(rx, ry, 0) == ry
    ensures LoHalf(rx, ry, 0) == rx && HiHalf(rx, ry, 0) == 0
  {
    hide At, Scaled;
    var r := LongRadius(rx, ry);
    FromPlaceToPlace(r, 0);
    ScaledEnds(Min(rx, ry), r);
  }

  lemma RowsNext(rx: nat, ry: nat, n: nat)
    requires rx > 0 && ry > 0 && n > 0 && Reached(LongRadius(rx, ry), n)
    ensures Lo(rx, ry, n - 1) <= Lo(rx, ry, n) <= Lo(rx, ry, n - 1) + 1
    ensures Hi(rx, ry, n - 1) - 1 <= Hi(rx, ry, n) <= Hi(rx, ry, n - 1)
    ensures Lo(rx, ry, n - 1) <= Hi(rx, ry, n) && Lo(rx, ry, n) <= Hi(rx, ry, n - 1)
  {
    hide At, Scaled, Reached;
    var r, short := LongRadius(rx, ry), Min(rx, ry);
    StepFrom(r, n);
    var q, p := At(r, n - 1), At(r, n);
    ScaledStep(q.H(), short, r);
    ScaledStep(q.I() - 1, short, r);
    ScaledOrder(q.H(), p.I(), short, r);
    ScaledOrder(p.H(), q.I(), short, r);
  }

  lemma RowsStep(rx: nat, ry: nat, n: nat)
    requires rx > 0 && ry > 0 && Reached(LongRadius(rx, ry), n)
    ensures LoBefore(rx, ry, n) <= Lo(rx, ry, n) <= LoBefore(rx, ry, n) + 1
    ensures HiBefore(rx, ry, n) - 1 <= Hi(rx, ry, n) <= HiBefore(rx, ry, n)
    ensures LoBefore(rx, ry, n) <= Hi(rx, ry, n) && Lo(rx, ry, n) <= HiBefore(rx, ry, n)
    ensures n == 0 ==> Lo(rx, ry, n) == 0 && Hi(rx, ry, n) == ry
    ensures if Continues(LongRadius(rx, ry), n) then Lo(rx, ry, n) <= Hi(rx, ry, n) else Hi(rx, ry, n) <= Lo(rx, ry, n)
  {
    hide Lo, Hi, Reached, Continues;
    RowsOfOneRound(rx, ry, n);
    if n == 0 {
      RowsStart(rx, ry);
    } else {
      RowsNext(rx, ry, n);
    }
  }

  lemma StepFrom(r: nat, n: nat)
    requires r > 0 && n > 0 && Reached(r, n)
    ensures var q, p := At(r, n - 1), At(r, n);
            q.H() <= p.H() <= q.H() + 1 && q.I() - 1 <= p.I() <= q.I() && q.H() <= p.I() && p.H() <= q.I()
  {
    assert Continues(r, n - 1);
    OnePixelAtATime(r, n - 1);
  }

  // ----- the two fronts -----

  /** What has been drawn is every row up to low and from up on; the fronts are
      at the rows of the last round, or have met. */
  predicate Fronts(low: int, up: int, lo: int, hi: int) {
    (low == lo && up == hi && lo < hi) || (low + 1 == up && low <= lo <= hi <= up)
  }

  function NextUp(low: int, up: int, hi: int): int {
    if hi != up && hi != low then hi else up
  }

  function NextLow(low: int, up: int, lo: int, hi: int): int {
    if lo != low && lo != NextUp(low, up, hi) && hi != lo then lo else low
  }

  /** One round: the fronts advance by single rows, and meet if it is the last. */
  lemma FrontsAdvance(low: int, up: int, lo: int, hi: int, lo': int, hi': int)
    requires Fronts(low, up, lo, hi) && lo <= lo' <= lo + 1 && hi - 1 <= hi' <= hi && lo <= hi' && lo' <= hi
    ensures var low', up' := NextLow(low, up, lo', hi'), NextUp(low, up, hi');
            && (lo' <= hi' ==> Fronts(low', up', lo', hi'))
            && (hi' <= lo' ==> low' + 1 == up')
            && (up' != up ==> low < up' == up - 1 && hi' < hi)
            && (low' != low ==> low + 1 == low' < up' && lo < lo')
  {
  }

  // ----- the rows of an ellipse -----

  /** A row is drawn in the first round that comes to it. */
  ghost predicate RowOfRound(s: Span, x: int, y: int, rx: nat, ry: nat, n: nat)
    requires LongRadius(rx, ry) > 0
  {
    && Reached(LongRadius(rx, ry), n)
    && ((s == RowSpan(x, y, HiHalf(rx, ry, n), s.y - y) && Abs(s.y - y) == Hi(rx, ry, n) < HiBefore(rx, ry, n))
        || (s == RowSpan(x, y, LoHalf(rx, ry, n), s.y - y) && Abs(s.y - y) == Lo(rx, ry, n) > LoBefore(rx, ry, n)))
  }

  ghost predicate IsEllipseRow(s: Span, x: int, y: int, rx: nat, ry: nat)
    requires LongRadius(rx, ry) > 0
  {
    exists n: nat :: RowOfRound(s, x, y, rx, ry, n)
  }

  ghost predicate EllipseRows(spans: seq<Span>, x: int, y: int, rx: nat, ry: nat)
    requires LongRadius(rx, ry) > 0
  {
    forall s :: s in spans ==> IsEllipseRow(s, x, y, rx, ry)
  }

  /** The rows up to low and from up to top are there, each once. */
  ghost predicate RowsAround(spans: seq<Span>, y: int, low: int, up: int, top: int) {
    && DistinctRows(spans)
    && forall row :: HasRow(spans, row) <==> Abs(row - y) <= low || up <= Abs(row - y) <= top
  }

  lemma AddFront(spans: seq<Span>, x: int, y: int, half: int, v: int, low: int, up: int, low': int, up': int, top: int)
    requires RowsAround(spans, y, low, up, top) && 0 <= v <= top && -1 <= low
    requires (v == up' == up - 1 && low' == low && low < v) || (v == low' == low + 1 && up' == up && v < up)
    ensures RowsAround(spans + Pair(x, y, half, v), y, low', up', top)
  {
    hide DistinctRows, HasRow;
    assert HasRow(spans, y + v) == HasRow(spans, y - v) == false;
    AddRows(spans, x, y, half, v);
  }

  lemma AddRowOfRound(spans: seq<Span>, x: int, y: int, rx: nat, ry: nat, n: nat, half: int, v: int)
    requires LongRadius(rx, ry) > 0 && Reached(LongRadius(rx, ry), n) && EllipseRows(spans, x, y, rx, ry) && 0 <= v
    requires (half == HiHalf(rx, ry, n) && v == Hi(rx, ry, n) < HiBefore(rx, ry, n))
             || (half == LoHalf(rx, ry, n) && v == Lo(rx, ry, n) > LoBefore(rx, ry, n))
    ensures EllipseRows(spans + Pair(x, y, half, v), x, y, rx, ry)
  {
    hide HiHalf, LoHalf, Hi, Lo, HiBefore, LoBefore, Reached;
    forall s | s in Pair(x, y, half, v)
      ensures IsEllipseRow(s, x, y, rx, ry)
    {
      assert RowOfRound(s, x, y, rx, ry, n);
    }
  }

  /** What the loops know in front of round n: low and up are the last rows
      drawn, kept in the variables oLo and oHi once there are any. */
  ghost predicate Filling(spans: seq<Span>, x: int, y: int, rx: nat, ry: nat, n: nat,
                          oLo: int, oHi: int, low: int, up: int)
    requires LongRadius(rx, ry) > 0
  {
    && Reached(LongRadius(rx, ry), n)
    && EllipseRows(spans, x, y, rx, ry)
    && RowsAround(spans, y, low, up, Top(ry)) && -1 <= low && up <= Top(ry) + 1
    && Fronts(low, up, LoBefore(rx, ry, n), HiBefore(rx, ry, n))
    && (if n == 0 then oLo == oHi == NOT_YET && low == -1 && up == Top(ry) + 1 else oLo == low && oHi == up)
  }

  /** The body of the loops, after the row numbers have been computed. */
  method FillRound(spans: seq<Span>, x: int, y: int, rx: nat, ry: nat, hi: int, hiHalf: int, lo: int, loHalf: int,
      oLo: int, oHi: int, ghost n: nat, ghost low: int, ghost up: int)
    returns (spans': seq<Span>, oLo': int, oHi': int)
    requires rx > 0 && ry > 0 && Filling(spans, x, y, rx, ry, n, oLo, oHi, low, up)
    requires hi == Hi(rx, ry, n) && hiHalf == HiHalf(rx, ry, n) && lo == Lo(rx, ry, n) && loHalf == LoHalf(rx, ry, n)
    ensures oLo' == NextLow(low, up, lo, hi) && oHi' == NextUp(low, up, hi)
    ensures EllipseRows(spans', x, y, rx, ry) && RowsAround(spans', y, oLo', oHi', Top(ry))
  {
    hide HiHalf, LoHalf, Hi, Lo, HiBefore, LoBefore, Reached, EllipseRows, RowsAround;
    spans', oLo', oHi' := spans, oLo, oHi;
    RowsStep(rx, ry, n);
    FrontsAdvance(low, up, LoBefore(rx, ry, n), HiBefore(rx, ry, n), lo, hi);
    FirstRound(rx, ry, n);
    if oHi' != hi && oLo' != hi {
      AddFront(spans', x, y, hiHalf, hi, low, up, low, hi, Top(ry));
      AddRowOfRound(spans', x, y, rx, ry, n, hiHalf, hi);
      spans' := spans' + Pair(x, y, hiHalf, hi);
      oHi' := hi;
    }
    if oLo' != lo && oHi' != lo && hi != lo {
      AddFront(spans', x, y, loHalf, lo, low, NextUp(low, up, hi), lo, NextUp(low, up, hi), Top(ry));
      AddRowOfRound(spans', x, y, rx, ry, n, loHalf, lo);
      spans' := spans' + Pair(x, y, loHalf, lo);
      oLo' := lo;
    }
  }

  lemma FirstRound(rx: nat, ry: nat, n: nat)
    requires LongRadius(rx, ry) > 0
    ensures n == 0 ==> LoBefore(rx, ry, n) == -1 && HiBefore(rx, ry, n) == Top(ry) + 1
    ensures n > 0 ==> LoBefore(rx, ry, n) == Lo(rx, ry, n - 1) && HiBefore(rx, ry, n) == Hi(rx, ry, n - 1)
  {
  }

  // ----- the loops -----

  lemma NothingFilled(x: int, y: int, rx: nat, ry: nat)
    requires rx > 0 && ry > 0
    ensures Filling([], x, y, rx, ry, 0, NOT_YET, NOT_YET, -1, Top(ry) + 1)
    ensures At(LongRadius(rx, ry), 0) == Place(0, LongRadius(rx, ry) * 64)
  {
  }

  lemma NextFilling(spans: seq<Span>, x: int, y: int, rx: nat, ry: nat, n: nat, low: int, up: int, low': int, up': int)
    requires rx > 0 && ry > 0 && Reached(LongRadius(rx, ry), n) && -1 <= low && up <= Top(ry) + 1
    requires Fronts(low, up, LoBefore(rx, ry, n), HiBefore(rx, ry, n))
    requires low' == NextLow(low, up, Lo(rx, ry, n), Hi(rx, ry, n)) && up' == NextUp(low, up, Hi(rx, ry, n))
    requires EllipseRows(spans, x, y, rx, ry) && RowsAround(spans, y, low', up', Top(ry))
    ensures Continues(LongRadius(rx, ry), n) ==> Filling(spans, x, y, rx, ry, n + 1, low', up', low', up')
    ensures !Continues(LongRadius(rx, ry), n) ==> low' + 1 == up'
  {
    hide Hi, Lo, HiBefore, LoBefore, EllipseRows, RowsAround;
    RowsStep(rx, ry, n);
    FrontsAdvance(low, up, LoBefore(rx, ry, n), HiBefore(rx, ry, n), Lo(rx, ry, n), Hi(rx, ry, n));
    FirstRound(rx, ry, n);
    FirstRound(rx, ry, n + 1);
  }

  /** All rows have been drawn once the fronts have met. */
  ghost predicate Filled(spans: seq<Span>, x: int, y: int, rx: nat, ry: nat)
    requires LongRadius(rx, ry) > 0
  {
    && EllipseRows(spans, x, y, rx, ry)
    && DistinctRows(spans)
    && forall row :: HasRow(spans, row) <==> Abs(row - y) <= Top(ry)
  }

  lemma FrontsHaveMet(spans: seq<Span>, x: int, y: int, rx: nat, ry: nat, low: int, up: int)
    requires LongRadius(rx, ry) > 0 && EllipseRows(spans, x, y, rx, ry) && RowsAround(spans, y, low, up, Top(ry))
    requires low + 1 == up <= Top(ry) + 1
    ensures Filled(spans, x, y, rx, ry)
  {
  }

  /** The loop for ellipses wider than high. */
  method WideRows(x: int, y: int, rx: nat, ry: nat) returns (spans: seq<Span>)
    requires 0 < ry < rx
    ensures Filled(spans, x, y, rx, ry)
  {
    hide Filling, Filled, EllipseRows, RowsAround, Fronts, NextLow, NextUp;
    spans := [];
    var oj, ok := NOT_YET, NOT_YET;
    var ix, iy := 0, rx * 64;
    ghost var n, low, up := 0, -1, Top(ry) + 1;
    NothingFilled(x, y, rx, ry);
    while true
      invariant 0 <= n && Place(ix, iy) == At(rx, n)
      invariant Filling(spans, x, y, rx, ry, n, oj, ok, low, up)
      decreases 2 * rx + 1 - n
    {
      FillingFacts(spans, x, y, rx, ry, n, oj, ok, low, up);
      var h, i := (ix + 32) / 64, (iy + 32) / 64;
      var j, k := h * ry / rx, i * ry / rx;
      spans, oj, ok := FillRound(spans, x, y, rx, ry, k, h, j, i, oj, ok, n, low, up);
      NextFilling(spans, x, y, rx, ry, n, low, up, oj, ok);
      low, up := oj, ok;
      ix := ix + iy / rx;
      iy := iy - ix / rx;
      if !(i > h) {
        FrontsHaveMet(spans, x, y, rx, ry, low, up);
        break;
      }
      n := n + 1;
    }
  }

  lemma FillingFacts(spans: seq<Span>, x: int, y: int, rx: nat, ry: nat, n: nat, oLo: int, oHi: int, low: int, up: int)
    requires rx > 0 && ry > 0 && Filling(spans, x, y, rx, ry, n, oLo, oHi, low, up)
    ensures Reached(LongRadius(rx, ry), n) && n <= 2 * LongRadius(rx, ry) && -1 <= low && up <= Top(ry) + 1
    ensures Fronts(low, up, LoBefore(rx, ry, n), HiBefore(rx, ry, n))
    ensures NextUp(low, up, Hi(rx, ry, n)) <= Top(ry) + 1
  {
    LoopEnds(LongRadius(rx, ry), n);
    RowsStep(rx, ry, n);
  }

  /** The loop for the other ellipses. */
  method TallRows(x: int, y: int, rx: nat, ry: nat) returns (spans: seq<Span>)
    requires 0 < rx <= ry
    ensures Filled(spans, x, y, rx, ry)
  {
    hide Filling, Filled, EllipseRows, RowsAround, Fronts, NextLow, NextUp;
    spans := [];
    var oh, oi := NOT_YET, NOT_YET;
    var ix, iy := 0, ry * 64;
    ghost var n, low, up := 0, -1, Top(ry) + 1;
    NothingFilled(x, y, rx, ry);
    while true
      invariant 0 <= n && Place(ix, iy) == At(ry, n)
      invariant Filling(spans, x, y, rx, ry, n, oh, oi, low, up)
      decreases 2 * ry + 1 - n
    {
      FillingFacts(spans, x, y, rx, ry, n, oh, oi, low, up);
      var h, i := (ix + 32) / 64, (iy + 32) / 64;
      var j, k := h * rx / ry, i * rx / ry;
      spans, oh, oi := FillRound(spans, x, y, rx, ry, i, j, h, k, oh, oi, n, low, up);
      NextFilling(spans, x, y, rx, ry, n, low, up, oh, oi);
      low, up := oh, oi;
      ix := ix + iy / ry;
      iy := iy - ix / ry;
      if !(i > h) {
        FrontsHaveMet(spans, x, y, rx, ry, low, up);
        break;
      }
      n := n + 1;
    }
  }

  /** Exactly one radius leaves rows out: then the top and the bottom row, whose
      number is the mark for no row yet, are missing. */
  lemma AllRowsUnlessMarked(spans: seq<Span>, x: int, y: int, rx: nat, ry: nat)
    requires LongRadius(rx, ry) > 0 && Filled(spans, x, y, rx, ry)
    ensures (forall row :: HasRow(spans, row) <==> y - ry <= row <= y + ry) <==> ry != NOT_YET
  {
    assert HasRow(spans, y + ry) <==> ry != NOT_YET;
  }

  // ----- the shape -----

  lemma {:induction false} PlacesInOrder(r: nat, m: nat, n: nat)
    requires r > 0 && Reached(r, n) && m <= n
    ensures At(r, m).H() <= At(r, n).H() && At(r, n).I() <= At(r, m).I()
    decreases n
  {
    if m < n {
      PlacesInOrder(r, m, n - 1);
      StepFrom(r, n);
    }
  }

  lemma PlacesApart(r: nat, m: nat, n: nat)
    requires r > 0 && Reached(r, m) && Reached(r, n) && m != n
    ensures At(r, m).H() <= At(r, n).I()
  {
    hide At, Continues;
    if m < n {
      PlacesInOrder(r, m, n - 1);
      StepFrom(r, n);
    } else {
      PlacesInOrder(r, n, m - 1);
      StepFrom(r, m);
    }
  }

  lemma RowsInOrder(rx: nat, ry: nat, m: nat, n: nat)
    requires LongRadius(rx, ry) > 0 && Reached(LongRadius(rx, ry), n) && m <= n
    ensures Lo(rx, ry, m) <= Lo(rx, ry, n) && Hi(rx, ry, n) <= Hi(rx, ry, m)
    ensures HiHalf(rx, ry, m) <= HiHalf(rx, ry, n) && LoHalf(rx, ry, n) <= LoHalf(rx, ry, m)
  {
    hide Scaled, Reached, At;
    var r, short := LongRadius(rx, ry), Min(rx, ry);
    PlacesInOrder(r, m, n);
    ScaledOrder(At(r, m).H(), At(r, n).H(), short, r);
    ScaledOrder(At(r, n).I(), At(r, m).I(), short, r);
  }

  lemma RowsApart(rx: nat, ry: nat, m: nat, n: nat)
    requires LongRadius(rx, ry) > 0 && Reached(LongRadius(rx, ry), m) && Reached(LongRadius(rx, ry), n) && m != n
    ensures Lo(rx, ry, m) <= Hi(rx, ry, n) && HiHalf(rx, ry, m) <= LoHalf(rx, ry, n)
  {
    hide Scaled, Reached, At;
    var r, short := LongRadius(rx, ry), Min(rx, ry);
    PlacesApart(r, m, n);
    ScaledOrder(At(r, m).H(), At(r, n).I(), short, r);
  }

  /** A row further from the centre is never wider. */
  lemma RowsNarrowOutward(s: Span, t: Span, x: int, y: int, rx: nat, ry: nat)
    requires LongRadius(rx, ry) > 0 && IsEllipseRow(s, x, y, rx, ry) && IsEllipseRow(t, x, y, rx, ry)
    requires Abs(s.y - y) < Abs(t.y - y)
    ensures t.x2 <= s.x2
  {
    hide Lo, Hi, LoHalf, HiHalf, LoBefore, HiBefore, Reached;
    var m: nat :| RowOfRound(s, x, y, rx, ry, m);
    var n: nat :| RowOfRound(t, x, y, rx, ry, n);
    if m < n {
      RowsInOrder(rx, ry, m, n);
      RowsApart(rx, ry, m, n);
      RowsApart(rx, ry, n, m);
    } else if n < m {
      RowsInOrder(rx, ry, n, m);
      RowsApart(rx, ry, m, n);
      RowsApart(rx, ry, n, m);
    } else {
      RowsOfOneRound(rx, ry, n);
    }
  }

  lemma RowsAreInBox(s: Span, x: int, y: int, rx: nat, ry: nat)
    requires rx > 0 && ry > 0 && IsEllipseRow(s, x, y, rx, ry)
    ensures s.x1 <= s.x2 && x - rx <= s.x1 && s.x2 <= x + rx && s.x1 + s.x2 == 2 * x
  {
    hide Scaled, Reached, At;
    var n: nat :| RowOfRound(s, x, y, rx, ry, n);
    var r := LongRadius(rx, ry);
    PlaceInBox(r, n);
    ScaledEnds(Min(rx, ry), r);
    ScaledOrder(0, At(r, n).H(), Min(rx, ry), r);
    ScaledOrder(0, At(r, n).I(), Min(rx, ry), r);
    ScaledOrder(At(r, n).H(), r, Min(rx, ry), r);
    ScaledOrder(At(r, n).I(), r, Min(rx, ry), r);
  }

  lemma PlaceInBox(r: nat, n: nat)
    requires r > 0 && Reached(r, n)
    ensures 0 <= At(r, n).H() <= r && 0 <= At(r, n).I() <= r
  {
    SumHolds(r, n);
    if n > 0 {
      StepFrom(r, n);
      SumHolds(r, n - 1);
    }
  }

  // ----- FilledEllipseColor -----

  function OutcomeFor(clip: Rect, x: int, y: int, rx: int, ry: int): Outcome {
    if clip.w == 0 || clip.h == 0 then ClipEmpty
    else if rx < 0 || ry < 0 then BadRadius
    else if rx != 0 && ry != 0
            && (x + rx < clip.x || x - rx > clip.x + clip.w - 1 || y + ry < clip.y || y - ry > clip.y + clip.h - 1)
    then OutOfSight
    else Outcome.Drawn
  }

  /** Whether the spans are those of an ellipse; with a radius of zero it is a line. */
  ghost predicate IsEllipse(spans: seq<Span>, x: int, y: int, rx: nat, ry: nat) {
    && DistinctRows(spans)
    && (forall s :: s in spans ==> s.x1 + s.x2 == 2 * x && x - rx <= s.x1 <= s.x2 <= x + rx)
    && (forall row :: HasRow(spans, row) <==> Abs(row - y) <= if rx == 0 || ry == 0 then ry else Top(ry))
    && (rx > 0 && ry > 0 ==> EllipseRows(spans, x, y, rx, ry))
    && (ry == 0 ==> spans == [Span(x - rx, x + rx, y)])
  }

  /** FilledEllipseColor: the pixels of the rows inside the clip rectangle are
      painted, each once. */
  method FilledEllipseColor(surface: Surface, x: int, y: int, rx: int, ry: int, color: Word)
    returns (outcome: Outcome, ghost spans: seq<Span>)
    requires surface.Valid() && surface.ClipFits()
    modifies surface.data
    ensures surface.Valid() && outcome == OutcomeFor(surface.clip.Value(), x, y, rx, ry)
    ensures if outcome.Drawn? then IsEllipse(spans, x, y, rx, ry) else spans == []
    ensures Painted(FillPaint(color), old(surface.Content()), surface.Content(),
                    Lines(spans) * Box(surface.clip.Value()))
  {
    hide Painted, FillPaint;
    outcome := OutcomeFor(surface.clip.Value(), x, y, rx, ry);
    spans := [];
    if !outcome.Drawn? {
      NoPixels(surface.Content(), FillPaint(color), surface.clip.Value());
      return;
    }
    if rx == 0 {
      VLineColor(surface, x, y - ry, y + ry, color);
      spans := seq(2 * ry + 1, k requires 0 <= k => RowSpan(x, y, 0, k - ry));
      ColumnOfRows(spans, x, y, ry, color);
    } else if ry == 0 {
      HLineColor(surface, Span(x - rx, x + rx, y), color);
      spans := [Span(x - rx, x + rx, y)];
      OneRow(spans, x, y, rx, color);
    } else {
      var rows: seq<Span>;
      if rx > ry {
        rows := WideRows(x, y, rx, ry);
      } else {
        rows := TallRows(x, y, rx, ry);
      }
      spans := rows;
      FilledIsEllipse(spans, x, y, rx, ry);
      DrawSpans(surface, rows, color);
    }
  }

  /** Drawn are the ellipses with radii above zero whose box meets the clip rectangle
      and, for the line functions to clip, all others without a negative radius. */
  lemma OutcomeMeaning(clip: Rect, x: int, y: int, rx: int, ry: int)
    requires clip.w >= 0 && clip.h >= 0
    ensures OutcomeFor(clip, x, y, rx, ry).Drawn? <==>
      rx >= 0 && ry >= 0 && !clip.Empty()
      && (rx == 0 || ry == 0 || !Meet(Rect(x - rx, y - ry, 2 * rx + 1, 2 * ry + 1), clip).Empty())
  {
  }

  /** None of the rows of an ellipse that is out of sight is in the clip rectangle. */
  lemma OutOfSightHasNoRows(clip: Rect, x: int, y: int, rx: int, ry: int, spans: seq<Span>)
    requires rx > 0 && ry > 0 && clip.w > 0 && clip.h > 0 && OutcomeFor(clip, x, y, rx, ry).OutOfSight?
    requires IsEllipse(spans, x, y, rx, ry)
    ensures Lines(spans) * Box(clip) == iset{}
  {
    forall i, px, py | 0 <= i < |spans| && spans[i].Has(px, py)
      ensures !clip.Has(px, py)
    {
      assert spans[i] in spans && HasRow(spans, spans[i].y);
    }
  }

  lemma NoPixels(image: Image, f: Paint, clip: Rect)
    requires image.Valid()
    ensures Painted(f, image, image, Lines([]) * Box(clip))
  {
    assert Lines([]) * Box(clip) == iset{};
    PaintedNothing(f, image);
  }

  lemma ColumnOfRows(spans: seq<Span>, x: int, y: int, ry: nat, color: Word)
    requires |spans| == 2 * ry + 1 && forall k :: 0 <= k < |spans| ==> spans[k] == RowSpan(x, y, 0, k - ry)
    ensures IsEllipse(spans, x, y, 0, ry) && Lines(spans) == Box(DrawnColumn(x, y - ry, y + ry, color))
  {
    forall row
      ensures HasRow(spans, row) <==> Abs(row - y) <= ry
    {
      if Abs(row - y) <= ry {
        assert spans[row - y + ry] in spans;
      }
    }
    forall p: Point
      ensures p in Lines(spans) <==> p in Box(DrawnColumn(x, y - ry, y + ry, color))
    {
      if p in Box(DrawnColumn(x, y - ry, y + ry, color)) {
        assert spans[p.y - y + ry].Has(p.x, p.y);
      }
    }
    if ry == 0 {
      assert spans == [Span(x - 0, x + 0, y)];
    }
  }

  lemma OneRow(spans: seq<Span>, x: int, y: int, rx: nat, color: Word)
    requires spans == [Span(x - rx, x + rx, y)]
    ensures IsEllipse(spans, x, y, rx, 0)
    ensures Lines(spans) == Line(DrawnSpan(Span(x - rx, x + rx, y), color))
  {
    assert spans[0] in spans;
    assert HasRow(spans, y);
    forall p: Point
      ensures p in Lines(spans) <==> p in Line(Span(x - rx, x + rx, y))
    {
      if p in Line(Span(x - rx, x + rx, y)) {
        assert spans[0].Has(p.x, p.y);
      }
    }
  }

  lemma FilledIsEllipse(spans: seq<Span>, x: int, y: int, rx: nat, ry: nat)
    requires rx > 0 && ry > 0 && Filled(spans, x, y, rx, ry)
    ensures IsEllipse(spans, x, y, rx, ry)
    ensures forall i, j, px, py :: 0 <= i < j < |spans| && spans[i].Has(px, py) ==> !spans[j].Has(px, py)
  {
    forall s | s in spans
      ensures s.x1 + s.x2 == 2 * x && x - rx <= s.x1 <= s.x2 <= x + rx
    {
      RowsAreInBox(s, x, y, rx, ry);
    }
  }
}
