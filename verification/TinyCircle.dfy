/** Circles of radius 0 to 4 come from pixel tables. The larger of them are drawn
    around the corner that the given pixel shares with those to its right and
    below. */
module TinyCircle {
  import opened Words
  import opened Rects
  import opened Surfaces
  import opened Drawing
  import opened Pixels

  /** Distance of a column or row from that corner, in half pixels. */
  function Halves(u: int): nat {
    if u > 0 then 2 * u - 1 else 1 - 2 * u
  }

  /** The outlines: two diamonds, a square without one of its corners, a cross of
      four pixels and a single pixel. */
  predicate OnTiny(u: int, v: int, radius: int) {
    match radius
    case 4 => Halves(u) + Halves(v) == 8 || Halves(u) == Halves(v) == 5
    case 3 => Halves(u) + Halves(v) == 6
    case 2 => Max(Halves(u), Halves(v)) == 3 && !(u == v == -1)
    case 1 => u in {-1, 1} && v in {-1, 1}
    case _ => u == v == 0
  }

  /** The outlines of radius 2 to 4 reach from 1 - radius to radius, both ways. All
      outlines are symmetric about the diagonal; that of radius 2 is the only one
      that is not symmetric about its middle column. */
  lemma TinyShape(radius: int)
    requires 0 <= radius <= 4
    ensures forall u, v :: OnTiny(u, v, radius) == OnTiny(v, u, radius)
    ensures radius >= 2 ==> forall u, v :: OnTiny(u, v, radius) ==> 1 - radius <= u <= radius
    ensures radius >= 2 ==> OnTiny(radius, 1, radius) && OnTiny(1 - radius, 1, radius)
    ensures (forall u, v :: OnTiny(u, v, radius) == OnTiny((if radius >= 2 then 1 else 0) - u, v, radius))
       <==> radius != 2
  {
    if radius == 2 {
      assert OnTiny(2, -1, 2) && !OnTiny(1 - 2, -1, 2);
    }
  }

  /** How often a pixel of an outline is drawn: one corner of the square comes
      twice. */
  function TinyVisits(u: int, v: int, radius: int): nat {
    if !OnTiny(u, v, radius) then 0 else if radius == 2 && u == v == 2 then 2 else 1
  }

  ghost predicate TinyOutline(points: seq<Point>, x: int, y: int, radius: int) {
    forall p :: multiset(points)[p] == TinyVisits(p.x - x, p.y - y, radius)
  }

  function Once(p: Point, q: Point): nat {
    if p == q then 1 else 0
  }

  lemma OneMore(points: seq<Point>, a: Point, p: Point)
    ensures multiset(points + [a])[p] == multiset(points)[p] + Once(p, a)
  {
    assert multiset(points + [a]) == multiset(points) + multiset{a};
  }

  lemma TwoMore(points: seq<Point>, a: Point, b: Point, p: Point)
    ensures multiset(points + [a, b])[p] == multiset(points)[p] + Once(p, a) + Once(p, b)
  {
    OneMore(points, a, p);
    OneMore(points + [a], b, p);
    assert points + [a] + [b] == points + [a, b];
  }

  lemma Regroup(points: seq<Point>, a: Point, b: Point, c: Point, d: Point)
    ensures points + [a, b, c, d] == points + [a, b] + [c, d]
  {
  }

  lemma FourMore(points: seq<Point>, a: Point, b: Point, c: Point, d: Point, p: Point)
    ensures multiset(points + [a, b, c, d])[p]
         == multiset(points)[p] + Once(p, a) + Once(p, b) + Once(p, c) + Once(p, d)
  {
    hide Once;
    Regroup(points, a, b, c, d);
    TwoMore(points, a, b, p);
    TwoMore(points + [a, b], c, d, p);
  }

  /** MicroCircleColor: the points it draws, in order. */
  method MicroCircle(x: int, y: int, radius: int) returns (points: seq<Point>)
    requires 0 <= radius <= 4
    ensures TinyOutline(points, x, y, radius)
  {
    if radius == 4 {
      points := Diamond(x, y, 4);
      OuterDiagonals(points, x, y);
      points := points + [Point(x - 2, y - 2), Point(x + 3, y - 2), Point(x - 2, y + 3), Point(x + 3, y + 3)];
    } else if radius == 3 {
      points := Diamond(x, y, 3);
    } else if radius == 2 {
      points := SquareEdges(x, y);
    } else if radius == 1 {
      Corners(x, y);
      points := [Point(x + 1, y + 1), Point(x + 1, y - 1), Point(x - 1, y + 1), Point(x - 1, y - 1)];
    } else {
      points := [Point(x, y)];
    }
  }

  lemma OuterDiagonals(points: seq<Point>, x: int, y: int)
    requires DiamondBegun(points, x, y, 4, 4)
    ensures TinyOutline(points + [Point(x - 2, y - 2), Point(x + 3, y - 2), Point(x - 2, y + 3), Point(x + 3, y + 3)],
                        x, y, 4)
  {
    forall p {
      FourMore(points, Point(x - 2, y - 2), Point(x + 3, y - 2), Point(x - 2, y + 3), Point(x + 3, y + 3), p);
    }
  }

  lemma Corners(x: int, y: int)
    ensures TinyOutline([Point(x + 1, y + 1), Point(x + 1, y - 1), Point(x - 1, y + 1), Point(x - 1, y - 1)], x, y, 1)
  {
    var a, b, c, d := Point(x + 1, y + 1), Point(x + 1, y - 1), Point(x - 1, y + 1), Point(x - 1, y - 1);
    assert [] + [a, b, c, d] == [a, b, c, d];
    forall p
      ensures multiset([a, b, c, d])[p] == TinyVisits(p.x - x, p.y - y, 1)
    {
      FourMore([], a, b, c, d, p);
    }
  }

  /** The first i pixels of the four edges of a diamond. */
  predicate EdgesBegun(u: int, v: int, n: int, i: int) {
    || (1 - n <= u < 1 - n + i && (v == 1 - n - u || v == n + u))
    || (1 <= u < 1 + i && (v == u - n || v == n + 1 - u))
  }

  ghost predicate DiamondBegun(points: seq<Point>, x: int, y: int, n: int, i: int) {
    forall p :: multiset(points)[p] == if EdgesBegun(p.x - x, p.y - y, n, i) then 1 else 0
  }

  lemma DiamondRound(points: seq<Point>, x: int, y: int, n: int, i: int)
    requires 0 <= i < n && DiamondBegun(points, x, y, n, i)
    ensures DiamondBegun(points + [Point(x - (n - 1) + i, y - i), Point(x - (n - 1) + i, y + 1 + i),
                                   Point(x + 1 + i, y - (n - 1) + i), Point(x + 1 + i, y + n - i)], x, y, n, i + 1)
  {
    forall p {
      FourMore(points, Point(x - (n - 1) + i, y - i), Point(x - (n - 1) + i, y + 1 + i),
               Point(x + 1 + i, y - (n - 1) + i), Point(x + 1 + i, y + n - i), p);
    }
  }

  method Diamond(x: int, y: int, n: int) returns (points: seq<Point>)
    requires n > 0
    ensures DiamondBegun(points, x, y, n, n)
  {
    hide DiamondBegun;
    points := [];
    EmptyDiamond(x, y, n);
    var topLeft, btmLeft := Point(x - (n - 1), y), Point(x - (n - 1), y + 1);
    var topRight, btmRight := Point(x + 1, y - (n - 1)), Point(x + 1, y + n);
    for i := 0 to n
      invariant topLeft == Point(x - (n - 1) + i, y - i) && btmLeft == Point(x - (n - 1) + i, y + 1 + i)
      invariant topRight == Point(x + 1 + i, y - (n - 1) + i) && btmRight == Point(x + 1 + i, y + n - i)
      invariant DiamondBegun(points, x, y, n, i)
    {
      DiamondRound(points, x, y, n, i);
      points := points + [topLeft, btmLeft, topRight, btmRight];
      topLeft, btmLeft := Point(topLeft.x + 1, topLeft.y - 1), Point(btmLeft.x + 1, btmLeft.y + 1);
      topRight, btmRight := Point(topRight.x + 1, topRight.y + 1), Point(btmRight.x + 1, btmRight.y - 1);
    }
  }

  lemma EmptyDiamond(x: int, y: int, n: int)
    ensures DiamondBegun([], x, y, n, 0)
  {
  }

  /** How often a position is one of the first i along the edges of the square. */
  function EdgeVisits(u: int, v: int, i: int): nat {
    (if 0 <= u < i && v in {-1, 2} then 1 else 0) + (if 0 <= v < i && u in {-1, 2} then 1 else 0)
  }

  ghost predicate SquareBegun(points: seq<Point>, x: int, y: int, i: int) {
    forall p :: multiset(points)[p] == EdgeVisits(p.x - x, p.y - y, i)
  }

  lemma SquareRound(points: seq<Point>, x: int, y: int, i: int)
    requires 0 <= i < 3 && SquareBegun(points, x, y, i)
    ensures SquareBegun(points + [Point(x + i, y - 1), Point(x + i, y + 2), Point(x - 1, y + i), Point(x + 2, y + i)],
                        x, y, i + 1)
  {
    forall p {
      FourMore(points, Point(x + i, y - 1), Point(x + i, y + 2), Point(x - 1, y + i), Point(x + 2, y + i), p);
    }
  }

  lemma SquareBounds(points: seq<Point>, x: int, y: int)
    ensures SquareBegun([], x, y, 0)
    ensures SquareBegun(points, x, y, 3) ==> TinyOutline(points, x, y, 2)
  {
    forall u, v
      ensures EdgeVisits(u, v, 3) == TinyVisits(u, v, 2)
    {
    }
  }

  method SquareEdges(x: int, y: int) returns (points: seq<Point>)
    ensures TinyOutline(points, x, y, 2)
  {
    hide SquareBegun, TinyOutline;
    points := [];
    SquareBounds(points, x, y);
    var top, btm, right, left := Point(x, y - 1), Point(x, y + 2), Point(x - 1, y), Point(x + 2, y);
    for i := 0 to 3
      invariant top == Point(x + i, y - 1) && btm == Point(x + i, y + 2)
      invariant right == Point(x - 1, y + i) && left == Point(x + 2, y + i)
      invariant SquareBegun(points, x, y, i)
    {
      SquareRound(points, x, y, i);
      points := points + [top, btm, right, left];
      top, btm := top.(x := top.x + 1), btm.(x := btm.x + 1);
      right, left := right.(y := right.y + 1), left.(y := left.y + 1);
    }
    SquareBounds(points, x, y);
  }

  // ----- the filled ones -----

  /** What a filled circle draws as rows, and what as single pixels. */
  predicate InTinyRows(u: int, v: int, radius: int) {
    match radius
    case 4 => Halves(u) <= 5 && Halves(v) <= 5
    case 3 => Halves(u) + Halves(v) <= 6
    case _ => false
  }

  predicate InTinyDots(u: int, v: int, radius: int) {
    match radius
    case 4 => (Halves(u) == 7 && Halves(v) == 1) || (Halves(u) == 1 && Halves(v) == 7)
    case 3 => false
    case 2 => Halves(u) <= 3 && Halves(v) <= 3 && Halves(u) + Halves(v) < 6
    case 1 => -1 <= u <= 1 && -1 <= v <= 1 && (u == 0 <==> v == 0)
    case _ => u == v == 0
  }

  ghost function TinyRows(x: int, y: int, radius: int): Area {
    iset p: Point | InTinyRows(p.x - x, p.y - y, radius)
  }

  ghost function TinyDots(x: int, y: int, radius: int): Area {
    iset p: Point | InTinyDots(p.x - x, p.y - y, radius)
  }

  /** One area was filled, then pixels of another were drawn. */
  ghost predicate PaintedInTurn(f: Paint, g: Paint, before: Image, now: Image, p: Area, q: Area)
    requires before.Valid()
  {
    exists mid: Image :: mid.Valid() && Painted(f, before, mid, p) && Painted(g, mid, now, q)
  }

  /** FilledMicroCircleRGBA: rows keep to the clip rectangle, single pixels only
      to the surface, and a translucent colour is blended differently in the two. */
  method FilledMicroCircle(surface: Surface, x: int, y: int, radius: int, color: Word)
    requires surface.Valid() && surface.ClipFits() && 0 <= radius <= 4
    modifies surface.data
    ensures surface.Valid()
    ensures PaintedInTurn(FillPaint(color), PixelPaint(color, surface.format.kind), old(surface.Content()),
                          surface.Content(), TinyRows(x, y, radius) * Box(surface.clip.Value()),
                          TinyDots(x, y, radius))
  {
    hide Painted, PixelPaint;
    ghost var before, clip := surface.Content(), Box(surface.clip.Value());
    if radius == 4 {
      var bulk := Rect(x - 2, y - 2, 6, 6);
      FillRectColor(surface, Some(bulk), color);
      assert Box(bulk) == TinyRows(x, y, 4);
    } else if radius == 3 {
      var spans := DiamondRows(x, y);
      DrawSpans(surface, spans, color);
    } else {
      PaintedNothing(FillPaint(color), before);
      assert TinyRows(x, y, radius) * clip == iset{};
    }
    ghost var mid := surface.Content();
    var points := TinyPoints(x, y, radius);
    DrawPoints(surface, points, PixelPaint(color, surface.format.kind));
    assert Dots(points) == TinyDots(x, y, radius);
    assert mid.Valid() && Painted(FillPaint(color), before, mid, TinyRows(x, y, radius) * clip);
  }

  method DiamondRows(x: int, y: int) returns (spans: seq<Span>)
    ensures Lines(spans) == TinyRows(x, y, 3)
    ensures forall s :: s in spans ==> s.x1 <= s.x2
    ensures forall i, j, x, y :: 0 <= i < j < |spans| && spans[i].Has(x, y) ==> !spans[j].Has(x, y)
  {
    spans := [];
    var xStart, xEnd := x - 2, x + 3;
    for i := 0 to 3
      invariant xStart == x - 2 + i && xEnd == x + 3 - i
      invariant |spans| == 2 * i
      invariant forall k :: 0 <= k < i ==> spans[2 * k] == Span(x - 2 + k, x + 3 - k, y - k)
      invariant forall k :: 0 <= k < i ==> spans[2 * k + 1] == Span(x - 2 + k, x + 3 - k, y + k + 1)
    {
      spans := spans + [Span(xStart, xEnd, y - i), Span(xStart, xEnd, y + i + 1)];
      xStart, xEnd := xStart + 1, xEnd - 1;
    }
    DiamondLines(spans, x, y);
  }

  lemma DiamondLines(spans: seq<Span>, x: int, y: int)
    requires |spans| == 6
    requires forall k :: 0 <= k < 3 ==> spans[2 * k] == Span(x - 2 + k, x + 3 - k, y - k)
    requires forall k :: 0 <= k < 3 ==> spans[2 * k + 1] == Span(x - 2 + k, x + 3 - k, y + k + 1)
    ensures Lines(spans) == TinyRows(x, y, 3)
    ensures forall s :: s in spans ==> s.x1 <= s.x2
    ensures forall i, j, x, y :: 0 <= i < j < |spans| && spans[i].Has(x, y) ==> !spans[j].Has(x, y)
  {
    assert spans == [Span(x - 2, x + 3, y), Span(x - 2, x + 3, y + 1), Span(x - 1, x + 2, y - 1),
                     Span(x - 1, x + 2, y + 2), Span(x, x + 1, y - 2), Span(x, x + 1, y + 3)] by {
      assert spans[2 * 0] == spans[0] && spans[2 * 0 + 1] == spans[1];
      assert spans[2 * 1] == spans[2] && spans[2 * 1 + 1] == spans[3];
      assert spans[2 * 2] == spans[4] && spans[2 * 2 + 1] == spans[5];
    }
    forall p: Point
      ensures p in Lines(spans) <==> p in TinyRows(x, y, 3)
    {
      if p in TinyRows(x, y, 3) {
        var v := p.y - y;
        var i := if v > 0 then 2 * v - 1 else -2 * v;
        assert spans[i].Has(p.x, p.y);
      }
    }
  }

  /** The single pixels of the filled circles, each once. */
  method TinyPoints(x: int, y: int, radius: int) returns (points: seq<Point>)
    requires 0 <= radius <= 4
    ensures Distinct(points)
    ensures forall p :: p in points <==> InTinyDots(p.x - x, p.y - y, radius)
  {
    if radius == 4 {
      points := [Point(x, y - 3), Point(x + 1, y - 3), Point(x, y + 4), Point(x + 1, y + 4),
                 Point(x - 3, y), Point(x - 3, y + 1), Point(x + 4, y), Point(x + 4, y + 1)];
    } else if radius == 3 {
      points := [];
    } else if radius == 2 {
      points := SquareDots(x, y);
    } else if radius == 1 {
      points := [Point(x + 1, y + 1), Point(x + 1, y - 1), Point(x - 1, y + 1), Point(x - 1, y - 1), Point(x, y)];
    } else {
      points := [Point(x, y)];
    }
  }

  method SquareDots(x: int, y: int) returns (points: seq<Point>)
    ensures Distinct(points)
    ensures forall p :: p in points <==> InTinyDots(p.x - x, p.y - y, 2)
  {
    points := [];
    for px := x - 1 to x + 3
      invariant Distinct(points)
      invariant forall p :: p in points <==> InTinyDots(p.x - x, p.y - y, 2) && p.x < px
    {
      for py := y - 1 to y + 3
        invariant Distinct(points)
        invariant forall p :: p in points <==>
          InTinyDots(p.x - x, p.y - y, 2) && (p.x < px || (p.x == px && p.y < py))
      {
        if !((px == x - 1 && py == y - 1) || (px == x + 2 && py == y - 1)
             || (px == x - 1 && py == y + 2) || (px == x + 2 && py == y + 2)) {
          points := points + [Point(px, py)];
        }
      }
    }
  }

  /** The fill covers the outline of the same radius, except for radius 2, whose
      outline has three of the four corners that the fill leaves out. */
  lemma TinyFillCovers(radius: int)
    requires 0 <= radius <= 4
    ensures (forall u, v :: OnTiny(u, v, radius) ==> InTinyRows(u, v, radius) || InTinyDots(u, v, radius))
       <==> radius != 2
  {
    if radius == 2 {
      assert OnTiny(2, 2, 2) && !InTinyRows(2, 2, 2) && !InTinyDots(2, 2, 2);
    }
  }
}
