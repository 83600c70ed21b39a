/** The filled circle: each row of it is one horizontal line, drawn once. */
module FilledCircle {
  import opened Arithmetic
  import opened Words
  import opened Rects
  import opened Surfaces
  import opened Drawing
  import opened SpanRows
  import opened Circle
  import opened Pixels
  import opened TinyCircle

  /** h is half the width of the row at distance v: the ends of the row lie on
      the midpoint circle. Where several columns share a row near the top, it is
      the first of them. */
  predicate IsHalfWidth(h: int, v: int, radius: int) {
    (v < h && OnOctant(v, h, radius))
    || (OnOctant(h, v, radius) && (h == 0 || !OnOctant(h - 1, v, radius)))
  }

  lemma HalfWidthIsUnique(h: int, h': int, v: int, radius: int)
    requires IsHalfWidth(h, v, radius) && IsHalfWidth(h', v, radius) && v >= 0
    ensures h == h'
  {
    if v < h && v < h' {
      OctantIsUnique(v, h, h', radius);
    } else if v < h {
      MixedRow(h, h', v, radius);
    } else if v < h' {
      MixedRow(h', h, v, radius);
    } else if h < h' {
      OctantInterval(h, h', v, radius);
    } else if h' < h {
      OctantInterval(h', h, v, radius);
    }
  }

  lemma MixedRow(h: int, h': int, v: int, radius: int)
    requires 0 <= v < h && 0 <= h'
    ensures !(OnOctant(v, h, radius) && OnOctant(h', v, radius))
  {
    SquareGrows(v, h);
    if h' <= v {
      SquareMonotone(h', v);
    }
  }

  lemma OctantInterval(h: int, h': int, v: int, radius: int)
    requires h < h' && OnOctant(h, v, radius) && OnOctant(h', v, radius)
    ensures OnOctant(h' - 1, v, radius)
  {
    SquareMonotone(h, h' - 1);
    SquareMonotone(h' - 1, h');
  }

  /** The row at v has been drawn: columns below cx gave the rows near the
      centre, rows from low up the outer ones. */
  predicate RowDone(v: int, cx: int, low: int, radius: int) {
    Abs(v) < cx || low <= Abs(v) <= radius
  }

  /** Every finished row is there once, with its half width. */
  ghost predicate Rows(spans: seq<Span>, x: int, y: int, cx: int, low: int, radius: int) {
    && DistinctRows(spans)
    && (forall s :: s in spans ==> IsRow(s, x, y, radius))
    && (forall row :: HasRow(spans, row) <==> RowDone(row - y, cx, low, radius))
  }

  predicate IsRow(s: Span, x: int, y: int, radius: int) {
    var h := s.x2 - x;
    h >= 0 && IsHalfWidth(h, Abs(s.y - y), radius) && s == RowSpan(x, y, h, s.y - y)
  }

  lemma AddPair(spans: seq<Span>, x: int, y: int, cx: int, low: int, cx': int, low': int, radius: int, h: int, v: int)
    requires Rows(spans, x, y, cx, low, radius)
    requires h >= 0 && IsHalfWidth(h, Abs(v), radius) && !RowDone(v, cx, low, radius)
    requires forall w :: RowDone(w, cx', low', radius) <==> RowDone(w, cx, low, radius) || Abs(w) == Abs(v)
    ensures Rows(spans + Pair(x, y, h, v), x, y, cx', low', radius)
  {
    hide IsHalfWidth, HasRow, DistinctRows;
    assert RowDone((y + v) - y, cx, low, radius) == RowDone((y - v) - y, cx, low, radius) == false;
    AddRows(spans, x, y, h, v);
  }

  /** The loop of FilledCircleColor: the lines it draws, in order. Each of the
      rows from y - radius to y + radius comes exactly once. */
  method CircleSpans(x: int, y: int, radius: int) returns (spans: seq<Span>)
    requires radius > 4
    ensures DistinctRows(spans)
    ensures forall s :: s in spans ==> IsRow(s, x, y, radius)
    ensures forall row :: HasRow(spans, row) <==> y - radius <= row <= y + radius
  {
    hide Rows, IsHalfWidth;
    spans := [];
    var cx, cy := 0, radius;
    var ocx, ocy := -1, -1;
    var df, dE, dSE := 1 - radius, 3, -2 * radius + 5;
    ghost var low := radius + 1;
    NoRows(x, y, radius);
    while cx <= cy
      invariant Deciding(cx, cy, df, radius) && 0 < cy <= radius
      invariant dE == 2 * cx + 3 && dSE == 2 * (cx - cy) + 5
      invariant ocx == cx - 1
      invariant ocy == -1 ==> cx == 0 && cy == radius && low == radius + 1
      invariant ocy != -1 ==>
        low == ocy && cx > 0 && cx - 1 <= ocy <= radius && cy <= ocy <= cy + 1 && OnOctant(cx - 1, ocy, radius)
      invariant Rows(spans, x, y, cx, low, radius)
      decreases cy - cx
    {
      if ocy != cy {
        FirstColumnOfRow(cx, cy, ocy, radius);
        AddPair(spans, x, y, cx, low, cx, cy, radius, cx, cy);
        spans := spans + Pair(x, y, cx, cy);
        ocy := cy;
        low := cy;
      }
      if ocx != cx {
        if cx != cy {
          RowOfColumn(cx, cy, radius);
          AddPair(spans, x, y, cx, cy, cx + 1, cy, radius, cy, -cx);
          spans := spans + Pair(x, y, cy, -cx);
        } else {
          SameRows(spans, x, y, cx, radius);
        }
        ocx := cx;
      }
      NextColumn(cx, cy, df, radius);
      if df < 0 {
        df := df + dE;
        dE := dE + 2;
        dSE := dSE + 2;
      } else {
        df := df + dSE;
        dE := dE + 2;
        dSE := dSE + 4;
        cy := cy - 1;
      }
      cx := cx + 1;
    }
    AllRows(spans, x, y, cx, low, radius);
  }

  lemma NoRows(x: int, y: int, radius: int)
    requires radius > 0
    ensures Rows([], x, y, 0, radius + 1, radius)
    ensures Deciding(0, radius, 1 - radius, radius)
  {
  }

  lemma FirstColumnOfRow(cx: int, cy: int, ocy: int, radius: int)
    requires OnOctant(cx, cy, radius) && ocy != cy
    requires cx == 0 || OnOctant(cx - 1, ocy, radius)
    ensures IsHalfWidth(cx, cy, radius)
  {
    if cx > 0 && OnOctant(cx - 1, cy, radius) {
      OctantIsUnique(cx - 1, cy, ocy, radius);
    }
  }

  lemma RowOfColumn(cx: int, cy: int, radius: int)
    requires OnOctant(cx, cy, radius) && cx < cy
    ensures IsHalfWidth(cy, cx, radius)
  {
  }

  lemma SameRows(spans: seq<Span>, x: int, y: int, cx: int, radius: int)
    requires Rows(spans, x, y, cx, cx, radius) && cx <= radius
    ensures Rows(spans, x, y, cx + 1, cx, radius)
  {
  }

  lemma AllRows(spans: seq<Span>, x: int, y: int, cx: int, low: int, radius: int)
    requires Rows(spans, x, y, cx, low, radius) && low <= cx && cx - 1 <= radius
    ensures DistinctRows(spans)
    ensures forall s :: s in spans ==> IsRow(s, x, y, radius)
    ensures forall row :: HasRow(spans, row) <==> y - radius <= row <= y + radius
  {
  }

  /** FilledCircleColor: every pixel of the disc inside the clip rectangle is
      painted exactly once, translucent colours included; up to radius 4 the
      pixels of the tables, in two steps. */
  method FilledCircleColor(surface: Surface, x: int, y: int, radius: int, color: Word) returns (outcome: Outcome)
    requires surface.Valid() && surface.ClipFits()
    modifies surface.data
    ensures surface.Valid() && outcome == OutcomeFor(surface.clip.Value(), x, y, radius)
    ensures !outcome.Tiny? ==>
      Painted(FillPaint(color), old(surface.Content()), surface.Content(),
              if outcome.Drawn? then Disc(x, y, radius) * Box(surface.clip.Value()) else iset{})
    ensures outcome.Tiny? ==>
      PaintedInTurn(FillPaint(color), PixelPaint(color, surface.format.kind), old(surface.Content()),
                    surface.Content(), TinyRows(x, y, radius) * Box(surface.clip.Value()), TinyDots(x, y, radius))
  {
    hide Painted, PixelPaint, PaintedInTurn;
    outcome := OutcomeFor(surface.clip.Value(), x, y, radius);
    if outcome.Drawn? {
      var spans := CircleSpans(x, y, radius);
      DrawSpans(surface, spans, color);
      LinesAreDisc(spans, x, y, radius);
    } else if outcome.Tiny? {
      FilledMicroCircle(surface, x, y, radius, color);
    } else {
      PaintedNothing(FillPaint(color), surface.Content());
    }
  }

  /** The rows of the circle, each as wide as its half width says. */
  ghost function Disc(x: int, y: int, radius: int): Area {
    iset p: Point | InDisc(p.x - x, p.y - y, radius)
  }

  ghost predicate InDisc(u: int, v: int, radius: int) {
    Abs(v) <= radius && exists h :: Reaches(h, u, v, radius)
  }

  predicate Reaches(h: int, u: int, v: int, radius: int) {
    IsHalfWidth(h, Abs(v), radius) && Abs(u) <= h
  }

  lemma LinesAreDisc(spans: seq<Span>, x: int, y: int, radius: int)
    requires forall s :: s in spans ==> IsRow(s, x, y, radius)
    requires forall row :: HasRow(spans, row) <==> y - radius <= row <= y + radius
    ensures Lines(spans) == Disc(x, y, radius)
  {
    forall p: Point
      ensures p in Lines(spans) <==> p in Disc(x, y, radius)
    {
      PixelOfLines(spans, x, y, radius, p);
    }
  }

  lemma PixelOfLines(spans: seq<Span>, x: int, y: int, radius: int, p: Point)
    requires forall s :: s in spans ==> IsRow(s, x, y, radius)
    requires forall row :: HasRow(spans, row) <==> y - radius <= row <= y + radius
    ensures p in Lines(spans) <==> InDisc(p.x - x, p.y - y, radius)
  {
    hide IsHalfWidth;
    if p in Lines(spans) {
      var i :| 0 <= i < |spans| && spans[i].Has(p.x, p.y);
      assert spans[i] in spans && HasRow(spans, p.y);
      assert Reaches(spans[i].x2 - x, p.x - x, p.y - y, radius);
    }
    if InDisc(p.x - x, p.y - y, radius) {
      var h :| Reaches(h, p.x - x, p.y - y, radius);
      assert HasRow(spans, p.y);
      var s :| s in spans && s.y == p.y;
      HalfWidthIsUnique(h, s.x2 - x, Abs(p.y - y), radius);
      var i :| 0 <= i < |spans| && spans[i] == s;
      assert spans[i].Has(p.x, p.y);
    }
  }

  /** The ends of every row are pixels the outline draws. */
  lemma RowEndsOnOutline(x: int, y: int, radius: int, s: Span)
    requires IsRow(s, x, y, radius)
    ensures Point(s.x1, s.y) in Outline(x, y, radius) && Point(s.x2, s.y) in Outline(x, y, radius)
  {
  }

  /** Beside the top pixel of every outline is another one, and the top row of
      the fill is a single pixel. */
  lemma OutlineReachesOutOfDisc(x: int, y: int, radius: int)
    requires radius > 2
    ensures Point(x + 1, y + radius) in Outline(x, y, radius) && Point(x + 1, y + radius) !in Disc(x, y, radius)
  {
    forall h: int
      ensures !Reaches(h, 1, radius, radius)
    {
      if IsHalfWidth(h, radius, radius) {
        HalfWidthIsUnique(0, h, radius, radius);
      }
    }
  }

  /** The fill lies in the bounding box of the circle, so one that is out of sight
      has no pixel in the clip rectangle either. */
  lemma DiscIsInBox(x: int, y: int, radius: int, p: Point)
    requires radius > 0 && p in Disc(x, y, radius)
    ensures CircleBox(x, y, radius).Has(p.x, p.y)
  {
    var h :| Reaches(h, p.x - x, p.y - y, radius);
    var v := Abs(p.y - y);
    OutlineInBox(h, v, radius);
  }

  lemma OutOfSightHasNoDisc(clip: Rect, x: int, y: int, radius: int)
    requires clip.w >= 0 && clip.h >= 0 && OutcomeFor(clip, x, y, radius).OutOfSight?
    ensures Disc(x, y, radius) * Box(clip) == iset{}
  {
    OutcomeMeaning(clip, x, y, radius);
    forall p | p in Disc(x, y, radius)
      ensures !clip.Has(p.x, p.y)
    {
      DiscIsInBox(x, y, radius, p);
    }
  }

  /** All pixels of an outline, from the tables or from the loop, and of a fill. */
  predicate OutlineHas(u: int, v: int, radius: int) {
    if radius <= 4 then OnTiny(u, v, radius) else OnCircle(u, v, radius)
  }

  ghost predicate FillHas(u: int, v: int, radius: int) {
    if radius <= 4 then InTinyRows(u, v, radius) || InTinyDots(u, v, radius) else InDisc(u, v, radius)
  }

  /** The fill covers the outline of the same circle for the radii 0, 1, 3 and 4
      and for no other. */
  lemma FillCoversOutline(radius: int)
    requires radius >= 0
    ensures (forall u, v :: OutlineHas(u, v, radius) ==> FillHas(u, v, radius)) <==> radius in {0, 1, 3, 4}
  {
    if radius <= 4 {
      TinyFillCovers(radius);
      if radius == 2 {
        assert OutlineHas(2, 2, 2) && !FillHas(2, 2, 2);
      }
    } else {
      OutlineReachesOutOfDisc(0, 0, radius);
      assert OutlineHas(1, radius, radius) && !FillHas(1, radius, radius);
    }
  }
}
