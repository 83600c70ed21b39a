/** How near the pixels of the ellipse functions are to the ellipse. */
module EllipseShape {
  import opened Arithmetic
  import opened Rects
  import opened Drawing
  import opened Circle
  import opened Orbit
  import opened FilledEllipse
  import opened EllipseOutline

  // ----- the orbit in pixels -----

  lemma PlaceBounds(r: nat, n: nat)
    requires r > 0 && Reached(r, n)
    ensures 0 <= At(r, n).ix <= 65 * r && -64 * r <= At(r, n).iy <= 64 * r
  {
    FromPlaceToPlace(r, n);
    SumHolds(r, n);
    if n > 0 {
      assert Continues(r, n - 1);
      hide At, Reached, Continues, Turn;
      SumHolds(r, n - 1);
      NextIxStaysSmall(r, n - 1);
      FromPlaceToPlace(r, n - 1);
      FallIsSmall(At(r, n - 1), r);
    }
  }

  lemma FallIsSmall(p: Place, r: nat)
    requires r > 0 && 32 * r < p.iy && Turn(p, r).ix < 65 * r
    ensures -64 * r <= Turn(p, r).iy
  {
    QuotientBelow(Turn(p, r).ix, 65, r);
  }

  /** The square of a pixel coordinate against that of the place it was rounded
      from. */
  lemma RoundedSquare(x: int, h: int, bound: int)
    requires h == (x + 32) / 64 && -bound <= x <= bound
    ensures -(64 * bound + 1024) <= 4096 * (h * h) - x * x <= 64 * bound + 1024
  {
    var e := x - 64 * h;
    assert (64 * h) * (64 * h) == 4096 * (h * h);
    DifferenceOfSquares(x, e);
    SmallProduct(e, x, 32, bound);
    SmallProduct(e, e, 32, 32);
  }

  lemma DifferenceOfSquares(x: int, e: int)
    ensures (x - e) * (x - e) - x * x == e * e - 2 * (e * x)
  {
  }

  lemma SmallProduct(a: int, b: int, c: int, d: int)
    requires -c <= a <= c && -d <= b <= d
    ensures -(c * d) <= a * b <= c * d
  {
    assert (c - a) * (d + b) >= 0 && (c + a) * (d - b) >= 0;
    assert (c - a) * (d - b) >= 0 && (c + a) * (d + b) >= 0;
  }

  lemma DividedBound(r: nat, s: int, b: int)
    requires r > 0 && -(r * b) <= r * s <= r * b
    ensures -b <= s <= b
  {
    if s > b {
      NextMultiple(b, s, r);
    } else if s < -b {
      NextMultiple(s, -b, r);
    }
  }

  /** The sum of the squares of a place, from the quadratic form it keeps. */
  lemma SumOfSquares(r: nat, x: int, y: int)
    requires r > 0 && -65 * r <= x <= 65 * r && -64 * r <= y <= 64 * r
    requires var d := Roundness(Place(x, y), r) - 4096 * (r * (r * r));
             -256 * (r * (r * r)) - 128 * (r * r) <= d <= 256 * (r * (r * r)) + 128 * (r * r)
    ensures var s := x * x + y * y - 4096 * (r * r); -(256 * (r * r) + 4288 * r) <= s <= 256 * (r * r) + 4288 * r
  {
    var q, c := r * r, x * y;
    SmallProduct(x, y, 65 * r, 64 * r);
    assert 65 * r * (64 * r) == 4160 * q;
    FormBounds(r, x * x, y * y, c, q);
  }

  lemma FormBounds(r: nat, a: int, b: int, c: int, q: int)
    requires r > 0 && q == r * r && -(4160 * q) <= c <= 4160 * q
    requires -256 * (r * q) - 128 * q <= r * a + r * b + c - 4096 * (r * q) <= 256 * (r * q) + 128 * q
    ensures -(256 * q + 4288 * r) <= a + b - 4096 * q <= 256 * q + 4288 * r
  {
    ProductsOfSum(r, a, b, q);
    DividedBound(r, a + b - 4096 * q, 256 * q + 4288 * r);
  }

  lemma ProductsOfSum(r: int, a: int, b: int, q: int)
    ensures r * (a + b - 4096 * q) == r * a + r * b - 4096 * (r * q)
    ensures r * (256 * q + 4288 * r) == 256 * (r * q) + 4288 * (r * r)
  {
  }

  /** In every round the two pixel coordinates are those of a point near the circle
      of the longer radius. */
  lemma OrbitIsNearCircle(r: nat, n: nat)
    requires r > 0 && Reached(r, n)
    ensures var h, i := At(r, n).H(), At(r, n).I();
            -(r * r + 58 * r) <= 16 * (h * h + i * i - r * r) <= r * r + 58 * r
    ensures 0 <= At(r, n).H() <= 2 * r && -2 * r <= At(r, n).I() <= 2 * r
  {
    hide Reached, Roundness;
    var p := At(r, n);
    hide At;
    PlaceBounds(r, n);
    RunStaysRound(r, n);
    SumOfSquares(r, p.ix, p.iy);
    RoundedSquare(p.ix, p.H(), 65 * r);
    RoundedSquare(p.iy, p.I(), 64 * r);
  }

  // ----- scaled to the ellipse -----

  /** How far a pixel may be from the ellipse: a sixteenth of its equation, and
      terms that are small next to it; a is the distance from the centre along the
      longer axis. */
  predicate Near(a: int, b: int, short: int, long: int) {
    Balanced((a * a) * (short * short), (b * b) * (long * long), (long * long) * (short * short),
             (short * short) * long, (long * long) * short)
  }

  predicate Balanced(a: int, b: int, whole: int, s: int, l: int) {
    var bound := whole + 58 * s + 80 * l;
    -bound <= 16 * (a + b - whole) <= bound
  }

  predicate NearEllipse(u: int, v: int, rx: int, ry: int) {
    if rx > ry then Near(u, v, ry, rx) else Near(v, u, rx, ry)
  }

  /** The square of a scaled coordinate. */
  lemma ScaledSquare(o: int, short: nat, long: nat)
    requires 0 < short <= long && -2 * long <= o <= 2 * long
    ensures var b := Scaled(o, short, long);
            var e := (b * b) * (long * long) - (o * o) * (short * short);
            -(5 * ((long * long) * short)) <= e <= 5 * ((long * long) * short)
  {
    var b, os := Scaled(o, short, long), o * short;
    var f := os % long;
    assert os - f == b * long;
    ProductOfSquares(b, long);
    ProductOfSquares(o, short);
    SmallProduct(o, short, 2 * long, short);
    RestOfSquare(os, f, short, long);
  }

  lemma ProductOfSquares(a: int, b: int)
    ensures (a * a) * (b * b) == (a * b) * (a * b)
  {
  }

  lemma RestOfSquare(os: int, f: int, short: nat, long: nat)
    requires 0 < short <= long && 0 <= f < long && -(2 * long * short) <= os <= 2 * long * short
    ensures -(5 * ((long * long) * short)) <= (os - f) * (os - f) - os * os <= 5 * ((long * long) * short)
  {
    var m := 2 * long * short;
    DifferenceOfSquares(os, f);
    SmallProduct(f, os, long, m);
    SmallProduct(f, f, long, long);
    Doubled(long, short);
    LessProduct(long * long, 1, short);
    AddRests(f * f, f * os, (long * long) * short, long * long, (os - f) * (os - f) - os * os);
  }

  lemma Doubled(long: int, short: int)
    ensures long * (2 * long * short) == 2 * ((long * long) * short)
  {
  }

  lemma AddRests(ff: int, fo: int, l: int, q: int, e: int)
    requires e == ff - 2 * fo && -q <= ff <= q <= l && -(2 * l) <= fo <= 2 * l
    ensures -(5 * l) <= e <= 5 * l
  {
  }

  /** A point near the circle of the longer radius, with one coordinate scaled. */
  lemma ScaledPoint(a: int, o: int, short: nat, long: nat)
    requires 0 < short <= long && -2 * long <= o <= 2 * long
    requires -(long * long + 58 * long) <= 16 * (a * a + o * o - long * long) <= long * long + 58 * long
    ensures Near(a, Scaled(o, short, long), short, long)
  {
    hide Scaled, Balanced;
    var b := Scaled(o, short, long);
    ScaledSquare(o, short, long);
    Weighed(a * a + o * o - long * long, long * long + 58 * long, short * short);
    Distributed(a * a, o * o, long, short);
    Total((a * a) * (short * short), (b * b) * (long * long), (o * o) * (short * short),
          (long * long) * (short * short), (short * short) * long, (long * long) * short);
  }

  /** The two errors together. */
  lemma Total(a: int, b: int, o: int, whole: int, s: int, l: int)
    requires -(whole + 58 * s) <= 16 * (a + o - whole) <= whole + 58 * s
    requires -(5 * l) <= b - o <= 5 * l
    ensures Balanced(a, b, whole, s, l)
  {
  }

  lemma Weighed(d: int, bound: int, w: nat)
    requires -bound <= 16 * d <= bound
    ensures -(bound * w) <= 16 * (d * w) <= bound * w
  {
    assert (bound - 16 * d) * w >= 0 && (bound + 16 * d) * w >= 0;
  }

  lemma Distributed(a: int, o: int, long: int, short: int)
    ensures (a + o - long * long) * (short * short)
         == a * (short * short) + o * (short * short) - (long * long) * (short * short)
    ensures (long * long + 58 * long) * (short * short)
         == (long * long) * (short * short) + 58 * ((short * short) * long)
  {
  }

  /** Every pixel of an ellipse outline is near the ellipse. */
  lemma PixelIsNearEllipse(p: Point, x: int, y: int, rx: nat, ry: nat)
    requires rx > 0 && ry > 0 && IsOutline(p, x, y, rx, ry)
    ensures NearEllipse(Abs(p.x - x), Abs(p.y - y), rx, ry)
  {
    hide Near, Reached, At, Scaled;
    var n: nat :| PixelOfRound(p, x, y, rx, ry, n);
    RoundIsNearEllipse(rx, ry, n);
  }

  /** The two ends of the rows of a round. */
  lemma RoundIsNearEllipse(rx: nat, ry: nat, n: nat)
    requires rx > 0 && ry > 0 && Reached(LongRadius(rx, ry), n)
    ensures NearEllipse(HiHalf(rx, ry, n), Hi(rx, ry, n), rx, ry)
    ensures NearEllipse(LoHalf(rx, ry, n), Lo(rx, ry, n), rx, ry)
  {
    hide Near, Reached, At, Scaled;
    var r := LongRadius(rx, ry);
    var h, i := At(r, n).H(), At(r, n).I();
    OrbitIsNearCircle(r, n);
    ScaledPoint(h, i, Min(rx, ry), r);
    ScaledPoint(i, h, Min(rx, ry), r);
  }

  /** Every row of a filled ellipse ends near the ellipse. */
  lemma RowEndIsNearEllipse(s: Span, x: int, y: int, rx: nat, ry: nat)
    requires rx > 0 && ry > 0 && IsEllipseRow(s, x, y, rx, ry)
    ensures NearEllipse(s.x2 - x, Abs(s.y - y), rx, ry)
  {
    hide Near, Reached, At, Scaled;
    var n: nat :| RowOfRound(s, x, y, rx, ry, n);
    RoundIsNearEllipse(rx, ry, n);
  }
}
