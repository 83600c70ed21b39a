/** Points that may come more than once: a translucent colour is applied as often
    as a point is drawn. The ellipse outline also tests them against the clip
    rectangle on the way. */
module Repaint {
  import opened Rects
  import opened Surfaces
  import opened Drawing

  /** The test of SetPixelSolidColorAndUseClippingRect and its blending twin:
      the last column and row are one too far, and the rows are measured by the
      width of the clip rectangle. */
  predicate PassesClip(clip: Rect, clipFlag: bool, p: Point) {
    clipFlag ==> !(p.x < clip.x || p.x > clip.x + clip.w || p.y < clip.y || p.y > clip.y + clip.w)
  }

  /** The test lets a pixel outside pass for every clip rectangle, and it holds
      pixels inside back for those that are higher than wide by two or more. */
  lemma ClipTestIsWrong(clip: Rect)
    requires clip.w > 0 && clip.h > 0
    ensures exists p :: PassesClip(clip, true, p) && !clip.Has(p.x, p.y)
    ensures (forall p: Point :: clip.Has(p.x, p.y) ==> PassesClip(clip, true, p)) <==> clip.h <= clip.w + 1
  {
    var beside, bottom := Point(clip.x + clip.w, clip.y), Point(clip.x, clip.y + clip.h - 1);
    assert PassesClip(clip, true, beside) && !clip.Has(beside.x, beside.y);
    assert clip.Has(bottom.x, bottom.y);
  }

  /** How often a pixel is painted when the points are drawn in turn. */
  ghost function Visits(points: seq<Point>, clip: Rect, clipFlag: bool, p: Point): nat {
    if PassesClip(clip, clipFlag, p) then multiset(points)[p] else 0
  }

  /** Every pixel was painted as often as it occurs and passes the test. */
  ghost predicate Repainted(f: Paint, before: Image, now: Image, points: seq<Point>, clip: Rect, clipFlag: bool)
    requires before.Valid()
  {
    && now.SameShape(before)
    && (forall x, y :: now.Contains(x, y) ==> PixelRepainted(f, before, now, points, clip, clipFlag, x, y))
    && (forall i :: 0 <= i < |now.data| && !now.IsPixelIndex(i) ==> now.data[i] == before.data[i])
  }

  ghost predicate PixelRepainted(f: Paint, before: Image, now: Image, points: seq<Point>, clip: Rect, clipFlag: bool,
      x: int, y: int)
    requires before.Valid() && now.SameShape(before) && now.Contains(x, y)
  {
    now.At(x, y) == Repeat(f, Visits(points, clip, clipFlag, Point(x, y)), before.At(x, y))
  }

  lemma PaintedOnceMore(f: Paint, before: Image, mid: Image, now: Image, points: seq<Point>, p: Point,
      clip: Rect, clipFlag: bool)
    requires before.Valid() && mid.Valid() && Repainted(f, before, mid, points, clip, clipFlag)
    requires Painted(f, mid, now, if PassesClip(clip, clipFlag, p) then iset{p} else iset{})
    ensures Repainted(f, before, now, points + [p], clip, clipFlag)
  {
    var area: Area := if PassesClip(clip, clipFlag, p) then iset{p} else iset{};
    forall x, y | now.Contains(x, y)
      ensures PixelRepainted(f, before, now, points + [p], clip, clipFlag, x, y)
    {
      assert PixelRepainted(f, before, mid, points, clip, clipFlag, x, y);
      assert PixelPainted(f, mid, now, area, x, y);
      assert multiset(points + [p]) == multiset(points) + multiset{p};
    }
  }

  method DrawRepeatedly(surface: Surface, points: seq<Point>, f: Paint, clipFlag: bool)
    requires surface.Valid()
    modifies surface.data
    ensures surface.Valid()
    ensures Repainted(f, old(surface.Content()), surface.Content(), points, surface.clip.Value(), clipFlag)
  {
    hide Painted, Repainted;
    ghost var before, clip := surface.Content(), surface.clip.Value();
    NothingRepainted(f, before, clip, clipFlag);
    assert points[..0] == [];
    for i := 0 to |points|
      invariant surface.Valid()
      invariant Repainted(f, before, surface.Content(), points[..i], clip, clipFlag)
    {
      ghost var mid := surface.Content();
      var c, p := surface.clip.Value(), points[i];
      if clipFlag && (p.x < c.x || p.x > c.x + c.w || p.y < c.y || p.y > c.y + c.w) {
        PaintedNothing(f, mid);
      } else {
        SetPixel(surface, p, f);
      }
      PaintedOnceMore(f, before, mid, surface.Content(), points[..i], points[i], clip, clipFlag);
      assert points[..i] + [points[i]] == points[..i + 1];
    }
    assert points[..|points|] == points;
  }

  lemma NothingRepainted(f: Paint, image: Image, clip: Rect, clipFlag: bool)
    requires image.Valid()
    ensures Repainted(f, image, image, [], clip, clipFlag)
  {
  }
}
