/** The midpoint circle: which pixels it draws, against the true circle. */
module Circle {
  import opened Arithmetic
  import opened Words
  import opened Rects
  import opened Surfaces
  import opened Drawing
  import opened Pixels
  import opened Repaint
  import opened TinyCircle

  // ----- the circle one asks for -----

  /** b is the distance of a pixel row that is nearest to the circle of the
      given radius at distance a, in the octant where a <= b. */
  predicate OnOctant(a: int, b: int, radius: int) {
    0 <= a <= b && -b <= a * a + b * b - radius * radius < b
  }

  /** The pixels of the circle around (0, 0): an octant and its reflections. */
  predicate OnCircle(u: int, v: int, radius: int) {
    OnOctant(Min(Abs(u), Abs(v)), Max(Abs(u), Abs(v)), radius)
  }

  function Abs(x: int): int {
    if x < 0 then -x else x
  }

  /** b is within half a pixel of the circle's height above a: the octant is the
      set of nearest pixels. */
  lemma OctantIsNearest(a: int, b: int, radius: int)
    requires 0 <= a <= b && b > 0
    ensures OnOctant(a, b, radius) <==>
      (2 * b - 1) * (2 * b - 1) < 4 * (radius * radius - a * a) < (2 * b + 1) * (2 * b + 1)
  {
    assert (2 * b - 1) * (2 * b - 1) == 4 * (b * b) - 4 * b + 1;
    assert (2 * b + 1) * (2 * b + 1) == 4 * (b * b) + 4 * b + 1;
  }

  /** One row for each column. */
  lemma OctantIsUnique(a: int, b: int, b': int, radius: int)
    requires OnOctant(a, b, radius) && OnOctant(a, b', radius)
    ensures b == b'
  {
    if b < b' {
      SquareGrows(b, b');
    } else if b' < b {
      SquareGrows(b', b);
    }
  }

  lemma SquareGrows(b: int, b': int)
    requires 0 <= b < b'
    ensures b * b + b <= b' * b' - b'
  {
    assert (b' - b - 1) * (b' + b) >= 0;
  }

  /** All eight reflections of a circle pixel are circle pixels. */
  lemma EightfoldSymmetry(u: int, v: int, radius: int)
    ensures OnCircle(u, v, radius) == OnCircle(-u, v, radius) == OnCircle(u, -v, radius) == OnCircle(v, u, radius)
  {
  }

  // ----- the decision variables -----

  /** What the loop knows when it is about to draw column cx: the current row is
      on the octant, and the decision variable is the circle function at the
      midpoint of the next two candidates. */
  predicate Deciding(cx: int, cy: int, df: int, radius: int) {
    && 0 <= cx && 0 <= cy
    && df == (cx + 1) * (cx + 1) + cy * cy - cy - radius * radius
    && -cy <= cx * cx + cy * cy - radius * radius
    && (cx <= cy ==> OnOctant(cx, cy, radius))
  }

  lemma NextColumn(cx: int, cy: int, df: int, radius: int)
    requires Deciding(cx, cy, df, radius) && cx <= cy && radius > 0
    ensures df < 0 ==> Deciding(cx + 1, cy, df + 2 * cx + 3, radius)
    ensures df >= 0 ==> Deciding(cx + 1, cy - 1, df + 2 * (cx - cy) + 5, radius)
    ensures df >= 0 ==> cy > 0
  {
    assert (cx + 1) * (cx + 1) == cx * cx + 2 * cx + 1;
    assert (cx + 2) * (cx + 2) == cx * cx + 4 * cx + 4;
    assert (cy - 1) * (cy - 1) == cy * cy - 2 * cy + 1;
  }

  /** Once the columns have passed the rows, the octant is complete. */
  lemma OctantComplete(cx: int, cy: int, df: int, radius: int, a: int, b: int)
    requires Deciding(cx, cy, df, radius) && cx > cy && OnOctant(a, b, radius)
    ensures a < cx
  {
    if a >= cx {
      SquareGrows(cy, b);
      SquareMonotone(cx, a);
    }
  }

  // ----- CircleColor -----

  /** What one round of the loop draws. */
  function Round(x: int, y: int, cx: int, cy: int): seq<Point> {
    (if cx > 0
     then [Point(x - cx, y + cy), Point(x + cx, y + cy), Point(x - cx, y - cy), Point(x + cx, y - cy)]
     else [Point(x, y - cy), Point(x, y + cy)])
    +
    (if cx > 0 && cx != cy
     then [Point(x - cy, y + cx), Point(x + cy, y + cx), Point(x - cy, y - cx), Point(x + cy, y - cx)]
     else if cx == 0 then [Point(x - cy, y), Point(x + cy, y)]
     else [])
  }

  lemma RoundHas(x: int, y: int, cx: int, cy: int, p: Point)
    requires 0 <= cx <= cy && cy > 0
    ensures p in Round(x, y, cx, cy) <==>
      Min(Abs(p.x - x), Abs(p.y - y)) == cx && Max(Abs(p.x - x), Abs(p.y - y)) == cy
  {
  }

  lemma RoundIsDistinct(x: int, y: int, cx: int, cy: int)
    requires 0 <= cx <= cy && cy > 0
    ensures Distinct(Round(x, y, cx, cy))
  {
  }

  /** The pixels of the columns before cx and their reflections. */
  predicate Plotted(p: Point, x: int, y: int, cx: int, radius: int) {
    OnCircle(p.x - x, p.y - y, radius) && Min(Abs(p.x - x), Abs(p.y - y)) < cx
  }

  /** The loop of CircleColor: the points it passes on, in order. Each pixel of
      the circle comes exactly once, and no other pixel comes. */
  method CirclePoints(x: int, y: int, radius: int) returns (points: seq<Point>)
    requires radius > 4
    ensures Distinct(points)
    ensures forall p :: p in points <==> OnCircle(p.x - x, p.y - y, radius)
  {
    points := [];
    var cx, cy := 0, radius;
    var df, dE, dSE := 1 - radius, 3, -2 * radius + 5;
    while cx <= cy
      invariant Deciding(cx, cy, df, radius) && cy > 0
      invariant dE == 2 * cx + 3 && dSE == 2 * (cx - cy) + 5
      invariant Distinct(points)
      invariant forall p :: p in points <==> Plotted(p, x, y, cx, radius)
      decreases cy - cx
    {
      NextColumn(cx, cy, df, radius);
      RoundIsNew(points, x, y, cx, cy, radius);
      points := points + Round(x, y, cx, cy);
      if df < 0 {
        df := df + dE;
        dE := dE + 2;
        dSE := dSE + 2;
      } else {
        df := df + dSE;
        dE := dE + 2;
        dSE := dSE + 4;
        cy := cy - 1;
      }
      cx := cx + 1;
    }
    forall p
      ensures p in points <==> OnCircle(p.x - x, p.y - y, radius)
    {
      var a, b := Min(Abs(p.x - x), Abs(p.y - y)), Max(Abs(p.x - x), Abs(p.y - y));
      if OnOctant(a, b, radius) {
        OctantComplete(cx, cy, df, radius, a, b);
      }
    }
  }

  lemma RoundIsNew(points: seq<Point>, x: int, y: int, cx: int, cy: int, radius: int)
    requires OnOctant(cx, cy, radius) && cy > 0 && Distinct(points)
    requires forall p :: p in points <==> Plotted(p, x, y, cx, radius)
    ensures Distinct(points + Round(x, y, cx, cy))
    ensures forall p :: p in points + Round(x, y, cx, cy) <==> Plotted(p, x, y, cx + 1, radius)
  {
    var round := Round(x, y, cx, cy);
    RoundIsDistinct(x, y, cx, cy);
    forall p
      ensures p in round ==> p !in points
      ensures p in points + round <==> Plotted(p, x, y, cx + 1, radius)
    {
      RoundHas(x, y, cx, cy, p);
      if Plotted(p, x, y, cx + 1, radius) && !Plotted(p, x, y, cx, radius) {
        OctantIsUnique(cx, cy, Max(Abs(p.x - x), Abs(p.y - y)), radius);
      }
    }
    DistinctSum(points, round);
  }

  lemma DistinctSum<T>(s: seq<T>, t: seq<T>)
    requires Distinct(s) && Distinct(t) && forall a :: a in t ==> a !in s
    ensures Distinct(s + t)
  {
    forall i, j | 0 <= i < j < |s + t|
      ensures (s + t)[i] != (s + t)[j]
    {
      if i < |s| <= j {
        assert t[j - |s|] in t;
      }
    }
  }

  // ----- drawing it -----

  /** How a circle is drawn: not at all, from the tables, or by the loop. */
  datatype Outcome = ClipEmpty | BadRadius | Tiny | OutOfSight | Drawn

  function OutcomeFor(clip: Rect, x: int, y: int, radius: int): Outcome {
    if clip.w == 0 || clip.h == 0 then ClipEmpty
    else if radius < 0 then BadRadius
    else if radius <= 4 then Tiny
    else if x + radius < clip.x || x - radius > clip.x + clip.w - 1
            || y + radius < clip.y || y - radius > clip.y + clip.h - 1 then OutOfSight
    else Outcome.Drawn
  }

  /** CircleColor: every pixel of the circle that lies on the surface is painted
      exactly once; up to radius 4 the pixels of the tables, as often as they come. */
  method CircleColor(surface: Surface, x: int, y: int, radius: int, color: Word)
    returns (outcome: Outcome, ghost points: seq<Point>)
    requires surface.Valid()
    modifies surface.data
    ensures surface.Valid() && outcome == OutcomeFor(surface.clip.Value(), x, y, radius)
    ensures !outcome.Tiny? ==>
      Painted(PixelPaint(color, surface.format.kind), old(surface.Content()), surface.Content(),
              if outcome.Drawn? then Outline(x, y, radius) else iset{})
    ensures outcome.Tiny? ==>
      && TinyOutline(points, x, y, radius)
      && Repainted(PixelPaint(color, surface.format.kind), old(surface.Content()), surface.Content(), points,
                   surface.clip.Value(), false)
  {
    hide PixelPaint, TinyOutline;
    var f := PixelPaint(color, surface.format.kind);
    outcome := OutcomeFor(surface.clip.Value(), x, y, radius);
    points := [];
    if outcome.Drawn? {
      var drawn := CirclePoints(x, y, radius);
      DrawPoints(surface, drawn, f);
      assert Dots(drawn) == Outline(x, y, radius);
    } else if outcome.Tiny? {
      var drawn := MicroCircle(x, y, radius);
      DrawRepeatedly(surface, drawn, f, false);
      points := drawn;
    } else {
      PaintedNothing(f, surface.Content());
    }
  }

  ghost function Outline(x: int, y: int, radius: int): Area {
    iset p: Point | OnCircle(p.x - x, p.y - y, radius)
  }

  // ----- the outline and the clip rectangle -----

  /** The bounding box of the circle. */
  function CircleBox(x: int, y: int, radius: int): Rect {
    Rect(x - radius, y - radius, 2 * radius + 1, 2 * radius + 1)
  }

  /** It lies inside a rectangle. */
  predicate BoxInside(x: int, y: int, radius: int, r: Rect) {
    CircleBox(x, y, radius).Inside(r)
  }

  lemma OutlineInBox(u: int, v: int, radius: int)
    requires radius >= 0 && OnCircle(u, v, radius)
    ensures Abs(u) <= radius && Abs(v) <= radius
  {
    var b := Max(Abs(u), Abs(v));
    if radius < b {
      SquareGrows(radius, b);
      SquareMonotone(0, Min(Abs(u), Abs(v)));
    }
  }

  /** The circle reaches all four sides of its box. */
  lemma OutlineFillsBox(x: int, y: int, radius: int)
    requires radius > 0
    ensures Point(x - radius, y) in Outline(x, y, radius) && Point(x + radius, y) in Outline(x, y, radius)
    ensures Point(x, y - radius) in Outline(x, y, radius) && Point(x, y + radius) in Outline(x, y, radius)
  {
  }

  /** The outline keeps to a rectangle exactly if its bounding box does. */
  lemma OutlineKeepsToBox(x: int, y: int, radius: int, clip: Rect)
    requires radius > 0
    ensures (forall p :: p in Outline(x, y, radius) ==> clip.Has(p.x, p.y)) <==> BoxInside(x, y, radius, clip)
  {
    OutlineFillsBox(x, y, radius);
    if BoxInside(x, y, radius, clip) {
      forall p | p in Outline(x, y, radius)
        ensures clip.Has(p.x, p.y)
      {
        OutlineInBox(p.x - x, p.y - y, radius);
      }
    }
  }

  /** Which way is taken: the loop for radii above 4 whose box meets the clip
      rectangle, the tables for radii from 0 to 4 and any clip rectangle that is not
      empty. A circle out of sight has no pixel in the clip rectangle. */
  lemma OutcomeMeaning(clip: Rect, x: int, y: int, radius: int)
    requires clip.w >= 0 && clip.h >= 0
    ensures var outcome := OutcomeFor(clip, x, y, radius);
            && (outcome.Drawn? <==> radius > 4 && !Meet(CircleBox(x, y, radius), clip).Empty())
            && (outcome.Tiny? <==> 0 <= radius <= 4 && !clip.Empty())
            && (outcome.OutOfSight? ==> forall p :: p in Outline(x, y, radius) ==> !clip.Has(p.x, p.y))
  {
    if radius > 4 {
      forall p | p in Outline(x, y, radius)
        ensures CircleBox(x, y, radius).Has(p.x, p.y)
      {
        OutlineInBox(p.x - x, p.y - y, radius);
      }
    }
  }

  /** A pixel of the surface that the clip rectangle excludes and that was painted. */
  ghost predicate PaintedOutside(f: Paint, before: Image, now: Image, area: Area, clip: Rect)
    requires before.Valid() && now.SameShape(before)
  {
    exists x, y :: now.Contains(x, y) && !clip.Has(x, y) && Point(x, y) in area && now.At(x, y) == f(before.At(x, y))
  }

  /** CircleColor does not clip: when a circle lies on the surface, the pixels
      outside the clip rectangle are left alone if and only if the clip rectangle
      has the whole bounding box. */
  lemma OutlineIgnoresClip(f: Paint, before: Image, now: Image, clip: Rect, x: int, y: int, radius: int)
    requires radius > 4 && before.Valid() && Painted(f, before, now, Outline(x, y, radius))
    requires BoxInside(x, y, radius, before.Bounds())
    ensures PaintedOutside(f, before, now, Outline(x, y, radius), clip) <==> !BoxInside(x, y, radius, clip)
    ensures BoxInside(x, y, radius, clip) ==>
      forall px, py :: now.Contains(px, py) && !clip.Has(px, py) ==> now.At(px, py) == before.At(px, py)
  {
    hide OnCircle;
    var outline := Outline(x, y, radius);
    OutlineKeepsToBox(x, y, radius, clip);
    OutlineKeepsToBox(x, y, radius, before.Bounds());
    if !BoxInside(x, y, radius, clip) {
      var p :| p in outline && !clip.Has(p.x, p.y);
      assert before.Bounds().Has(p.x, p.y);
      assert PixelPainted(f, before, now, outline, p.x, p.y);
    }
    forall px, py | now.Contains(px, py) && !clip.Has(px, py) && BoxInside(x, y, radius, clip)
      ensures now.At(px, py) == before.At(px, py)
    {
      assert PixelPainted(f, before, now, outline, px, py);
    }
  }

  /** Such a circle is drawn: the clip rectangle is the pixel (0, 0), which the
      circle around (0, 5) reaches, and its pixel (5, 5) is drawn as well. */
  lemma ClippedPixelIsDrawn()
    ensures OutcomeFor(Rect(0, 0, 1, 1), 0, 5, 5).Drawn?
    ensures Point(5, 5) in Outline(0, 5, 5) && !Rect(0, 0, 1, 1).Has(5, 5)
  {
  }
}
