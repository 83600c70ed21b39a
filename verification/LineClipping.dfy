/** ClipLine: a line is cut at the edges of the clip rectangle, one end at a
    time. How far an end slides along the edge is computed in floating point in
    the source; here it is an input. */
module LineClipping {
  import opened Rects

  datatype Segment = Segment(x1: int, y1: int, x2: int, y2: int) {
    function Swapped(): Segment {
      Segment(x2, y2, x1, y1)
    }

    /** Within the bounding box of another segment. */
    predicate Within(s: Segment) {
      && Min(s.x1, s.x2) <= x1 <= Max(s.x1, s.x2) && Min(s.x1, s.x2) <= x2 <= Max(s.x1, s.x2)
      && Min(s.y1, s.y2) <= y1 <= Max(s.y1, s.y2) && Min(s.y1, s.y2) <= y2 <= Max(s.y1, s.y2)
    }
  }

  function Reach(from: int, to: int): int {
    if from <= to then to - from else from - to
  }

  /** The bounding box of a segment, ends included. */
  function Spanned(s: Segment): Rect {
    Rect(Min(s.x1, s.x2), Min(s.y1, s.y2), Reach(s.x1, s.x2) + 1, Reach(s.y1, s.y2) + 1)
  }

  /** The bits of a clip code. */
  datatype Edges = Edges(left: bool, right: bool, bottom: bool, top: bool) {
    predicate Inside() {
      !left && !right && !bottom && !top
    }

    predicate Shares(other: Edges) {
      (left && other.left) || (right && other.right) || (bottom && other.bottom) || (top && other.top)
    }
  }

  function ClipCode(x: int, y: int, clip: Rect): Edges {
    var left, top := clip.x, clip.y;
    var right, bottom := clip.x + clip.w - 1, clip.y + clip.h - 1;
    Edges(x < left, x >= left && x > right, y >= top && y > bottom, y < top)
  }

  lemma InsideIsInClip(x: int, y: int, clip: Rect)
    ensures ClipCode(x, y, clip).Inside() <==> clip.Has(x, y)
  {
  }

  predicate Accepted(s: Segment, clip: Rect) {
    ClipCode(s.x1, s.y1, clip).Inside() && ClipCode(s.x2, s.y2, clip).Inside()
  }

  predicate Rejected(s: Segment, clip: Rect) {
    ClipCode(s.x1, s.y1, clip).Shares(ClipCode(s.x2, s.y2, clip))
  }

  /** Rejected are exactly the lines whose bounding box has no pixel in the clip
      rectangle. */
  lemma RejectedIsOutside(s: Segment, clip: Rect)
    requires clip.w > 0 && clip.h > 0
    ensures Rejected(s, clip) <==> forall x, y :: Spanned(s).Has(x, y) ==> !clip.Has(x, y)
    ensures Rejected(s, clip) <==> Meet(Spanned(s), clip).Empty()
  {
    var x, y := Max(Min(s.x1, s.x2), clip.x), Max(Min(s.y1, s.y2), clip.y);
    if !Rejected(s, clip) {
      assert Spanned(s).Has(x, y) && clip.Has(x, y);
    }
  }

  /** The first end is the one that is moved; it is outside. */
  function Oriented(s: Segment, clip: Rect): Segment {
    if ClipCode(s.x1, s.y1, clip).Inside() then s.Swapped() else s
  }

  /** The first end put on an edge it is beyond, moved by slide along it. */
  function Cut(s: Segment, clip: Rect, slide: int): Segment {
    var code := ClipCode(s.x1, s.y1, clip);
    if code.left then s.(x1 := clip.x, y1 := s.y1 + slide)
    else if code.right then s.(x1 := clip.x + clip.w - 1, y1 := s.y1 + slide)
    else
      var x := if s.x2 != s.x1 then s.x1 + slide else s.x1;
      if code.bottom then s.(x1 := x, y1 := clip.y + clip.h - 1) else s.(x1 := x, y1 := clip.y)
  }

  /** What the loop has come to: with no more slides given it is still at work. */
  datatype Clipped = Accept(line: Segment) | Reject | Running(rest: Segment)

  function ClipRun(s: Segment, clip: Rect, slides: seq<int>): Clipped
    decreases |slides|
  {
    if Accepted(s, clip) then Accept(s)
    else if Rejected(s, clip) then Reject
    else if slides == [] then Running(s)
    else ClipRun(Cut(Oriented(s, clip), clip, slides[0]), clip, slides[1..])
  }

  method ClipLine(clip: Rect, line: Segment, slides: seq<int>) returns (r: Clipped)
    ensures r == ClipRun(line, clip, slides)
  {
    var left, right := clip.x, clip.x + clip.w - 1;
    var top, bottom := clip.y, clip.y + clip.h - 1;
    var x1, y1, x2, y2 := line.x1, line.y1, line.x2, line.y2;
    var i := 0;
    while true
      invariant 0 <= i <= |slides|
      invariant ClipRun(Segment(x1, y1, x2, y2), clip, slides[i..]) == ClipRun(line, clip, slides)
      decreases |slides| - i
    {
      var code1, code2 := ClipCode(x1, y1, clip), ClipCode(x2, y2, clip);
      if code1.Inside() && code2.Inside() {
        return Accept(Segment(x1, y1, x2, y2));
      } else if code1.Shares(code2) {
        return Reject;
      } else if i == |slides| {
        return Running(Segment(x1, y1, x2, y2));
      }
      ghost var before := Segment(x1, y1, x2, y2);
      if code1.Inside() {
        x1, x2 := x2, x1;
        y1, y2 := y2, y1;
        code1, code2 := code2, code1;
      }
      if code1.left {
        y1 := y1 + slides[i];
        x1 := left;
      } else if code1.right {
        y1 := y1 + slides[i];
        x1 := right;
      } else if code1.bottom {
        if x2 != x1 {
          x1 := x1 + slides[i];
        }
        y1 := bottom;
      } else if code1.top {
        if x2 != x1 {
          x1 := x1 + slides[i];
        }
        y1 := top;
      }
      assert Segment(x1, y1, x2, y2) == Cut(Oriented(before, clip), clip, slides[i..][0]);
      assert slides[i..][1..] == slides[i + 1..];
      i := i + 1;
    }
  }

  /** Whatever the floating-point steps give, an accepted line has both ends in
      the clip rectangle. */
  lemma {:induction false} AcceptedEndsAreVisible(s: Segment, clip: Rect, slides: seq<int>)
    requires ClipRun(s, clip, slides).Accept?
    ensures var line := ClipRun(s, clip, slides).line; clip.Has(line.x1, line.y1) && clip.Has(line.x2, line.y2)
    decreases |slides|
  {
    if !Accepted(s, clip) {
      AcceptedEndsAreVisible(Cut(Oriented(s, clip), clip, slides[0]), clip, slides[1..]);
    }
  }

  // ----- when the steps stay on the line -----

  /** A slide that does not overshoot the other end. */
  predicate Steady(s: Segment, clip: Rect, slide: int) {
    var o := Oriented(s, clip);
    Cut(o, clip, slide).Within(s)
  }

  ghost predicate SteadyRun(s: Segment, clip: Rect, slides: seq<int>)
    decreases |slides|
  {
    Accepted(s, clip) || Rejected(s, clip) || slides == []
    || (Steady(s, clip, slides[0]) && SteadyRun(Cut(Oriented(s, clip), clip, slides[0]), clip, slides[1..]))
  }

  /** How many edges of the clip rectangle the line reaches beyond. */
  function Beyond(s: Segment, clip: Rect): nat {
    (if Min(s.x1, s.x2) < clip.x then 1 else 0)
    + (if Max(s.x1, s.x2) > clip.x + clip.w - 1 then 1 else 0)
    + (if Min(s.y1, s.y2) < clip.y then 1 else 0)
    + (if Max(s.y1, s.y2) > clip.y + clip.h - 1 then 1 else 0)
  }

  lemma CutLeavesOneEdge(s: Segment, clip: Rect, slide: int)
    requires clip.w >= 0 && clip.h >= 0 && !Accepted(s, clip) && !Rejected(s, clip) && Steady(s, clip, slide)
    ensures Beyond(Cut(Oriented(s, clip), clip, slide), clip) < Beyond(s, clip)
  {
  }

  /** With steady slides the loop ends within four rounds, and what is left of
      the line lies within the bounding box of the line. */
  lemma {:induction false} SteadyRunEnds(s: Segment, clip: Rect, slides: seq<int>)
    requires clip.w >= 0 && clip.h >= 0 && SteadyRun(s, clip, slides)
    ensures |slides| >= 4 ==> !ClipRun(s, clip, slides).Running?
    ensures ClipRun(s, clip, slides).Accept? ==> ClipRun(s, clip, slides).line.Within(s)
  {
    RunEndsAfter(s, clip, slides);
  }

  lemma {:induction false} RunEndsAfter(s: Segment, clip: Rect, slides: seq<int>)
    requires clip.w >= 0 && clip.h >= 0 && SteadyRun(s, clip, slides)
    ensures |slides| >= Beyond(s, clip) ==> !ClipRun(s, clip, slides).Running?
    ensures ClipRun(s, clip, slides).Accept? ==> ClipRun(s, clip, slides).line.Within(s)
    decreases |slides|
  {
    if !Accepted(s, clip) && !Rejected(s, clip) && slides != [] {
      CutLeavesOneEdge(s, clip, slides[0]);
      RunEndsAfter(Cut(Oriented(s, clip), clip, slides[0]), clip, slides[1..]);
    }
  }

  // ----- the slide without rounding -----

  function Truncated(r: real): int {
    if r >= 0.0 then r.Floor else -(-r).Floor
  }

  function Slope(dx: int, dy: int): real {
    if dx != 0 then dy as real / dx as real else 1.0
  }

  /** The slide along an upright edge, part of the way to the other end. */
  function SlideY(part: int, dx: int, dy: int): int {
    Truncated(part as real * Slope(dx, dy))
  }

  /** The slide along a level edge. */
  function SlideX(part: int, dx: int, dy: int): int {
    var m := Slope(dx, dy);
    if m == 0.0 then 0 else Truncated(part as real / m)
  }

  /** The slide as the source writes it, with a slope of exact real numbers. */
  function Slide(s: Segment, clip: Rect): int {
    var code := ClipCode(s.x1, s.y1, clip);
    var dx, dy := s.x2 - s.x1, s.y2 - s.y1;
    if code.left then SlideY(clip.x - s.x1, dx, dy)
    else if code.right then SlideY(clip.x + clip.w - 1 - s.x1, dx, dy)
    else if code.bottom then SlideX(clip.y + clip.h - 1 - s.y1, dx, dy)
    else SlideX(clip.y - s.y1, dx, dy)
  }

  predicate PartWay(part: int, whole: int) {
    if whole >= 0 then 0 <= part <= whole else whole <= part <= 0
  }

  /** A part of a length, truncated, does not exceed it. */
  lemma PartOf(part: int, dx: int, dy: int)
    requires dx != 0 && PartWay(part, dx)
    ensures PartWay(SlideY(part, dx, dy), dy)
  {
    var p, w, l := part as real, dx as real, dy as real;
    Fraction(p, w, p / w);
    Regroup(p, w, l, p / w, l / w);
    PartOfReal(p / w, l);
  }

  lemma Fraction(p: real, w: real, q: real)
    requires w != 0.0 && q * w == p && (if w > 0.0 then 0.0 <= p <= w else w <= p <= 0.0)
    ensures 0.0 <= q <= 1.0
  {
    if w > 0.0 {
      assert w * (1.0 - q) >= 0.0 && w * q >= 0.0;
    } else {
      assert (-w) * (1.0 - q) >= 0.0 && (-w) * q >= 0.0;
    }
  }

  lemma Regroup(p: real, w: real, l: real, q: real, a: real)
    requires q * w == p && a * w == l
    ensures p * a == q * l
  {
    assert (q * w) * a == q * (w * a);
  }

  lemma PartOfReal(q: real, l: real)
    requires 0.0 <= q <= 1.0
    ensures if l >= 0.0 then 0.0 <= q * l <= l else l <= q * l <= 0.0
  {
  }

  lemma InverseSlope(part: int, dx: int, dy: int)
    requires dx != 0 && dy != 0
    ensures SlideX(part, dx, dy) == SlideY(part, dy, dx)
  {
    var p, x, y := part as real, dx as real, dy as real;
    var m, n := y / x, x / y;
    assert m * x == y && n * y == x;
    Reciprocal(m, n, x, y);
    Dividing(p, m, n);
  }

  lemma Reciprocal(m: real, n: real, x: real, y: real)
    requires m * x == y && n * y == x && y != 0.0
    ensures m * n == 1.0 && m != 0.0
  {
    assert m * (n * y) == (m * n) * y;
    assert (m * n - 1.0) * y == 0.0;
  }

  lemma Dividing(p: real, m: real, n: real)
    requires m * n == 1.0 && m != 0.0
    ensures p / m == p * n
  {
    assert (p * n) * m == p * (m * n) == p;
  }

  lemma SlideIsSteady(s: Segment, clip: Rect)
    requires clip.w >= 0 && clip.h >= 0 && !Accepted(s, clip) && !Rejected(s, clip)
    ensures Steady(s, clip, Slide(Oriented(s, clip), clip))
  {
    hide SlideX, SlideY;
    var o := Oriented(s, clip);
    var code := ClipCode(o.x1, o.y1, clip);
    var dx, dy := o.x2 - o.x1, o.y2 - o.y1;
    if code.left || code.right {
      PartOf((if code.left then clip.x else clip.x + clip.w - 1) - o.x1, dx, dy);
    } else if dx != 0 {
      var part := (if code.bottom then clip.y + clip.h - 1 else clip.y) - o.y1;
      InverseSlope(part, dx, dy);
      PartOf(part, dy, dx);
    }
  }

  /** The slides of a run with exact slopes. */
  function ExactSlides(s: Segment, clip: Rect, rounds: nat): seq<int>
    decreases rounds
  {
    if rounds == 0 then []
    else
      var o := Oriented(s, clip);
      [Slide(o, clip)] + ExactSlides(Cut(o, clip, Slide(o, clip)), clip, rounds - 1)
  }

  lemma {:induction false} ExactRunIsSteady(s: Segment, clip: Rect, rounds: nat)
    requires clip.w >= 0 && clip.h >= 0
    ensures |ExactSlides(s, clip, rounds)| == rounds && SteadyRun(s, clip, ExactSlides(s, clip, rounds))
    decreases rounds
  {
    if rounds > 0 {
      var o := Oriented(s, clip);
      var slides := ExactSlides(s, clip, rounds);
      ExactRunIsSteady(Cut(o, clip, Slide(o, clip)), clip, rounds - 1);
      assert slides[1..] == ExactSlides(Cut(o, clip, Slide(o, clip)), clip, rounds - 1);
      if !Accepted(s, clip) && !Rejected(s, clip) {
        SlideIsSteady(s, clip);
      }
    }
  }

  /** With exact slopes ClipLine ends within four rounds. */
  lemma ExactClippingEnds(s: Segment, clip: Rect)
    requires clip.w >= 0 && clip.h >= 0
    ensures var r := ClipRun(s, clip, ExactSlides(s, clip, 4));
            && !r.Running?
            && (r.Accept? ==> r.line.Within(s) && clip.Has(r.line.x1, r.line.y1) && clip.Has(r.line.x2, r.line.y2))
  {
    var slides := ExactSlides(s, clip, 4);
    ExactRunIsSteady(s, clip, 4);
    SteadyRunEnds(s, clip, slides);
    if ClipRun(s, clip, slides).Accept? {
      AcceptedEndsAreVisible(s, clip, slides);
    }
  }

  // ----- where the steps lead -----

  lemma TruncationIsNear(r: real)
    ensures -1.0 < Truncated(r) as real - r < 1.0
  {
  }

  lemma SlopeTimes(part: int, dx: int, dy: int)
    requires dx != 0
    ensures part as real * Slope(dx, dy) * dx as real == (part * dy) as real
  {
    var p, m, w := part as real, Slope(dx, dy), dx as real;
    assert m * w == dy as real;
    assert p * m * w == p * (m * w);
    assert (part * dy) as real == p * dy as real;
  }

  lemma ErrorOfProduct(t: int, r: real, dx: int, whole: int)
    requires r * dx as real == whole as real
    ensures (t * dx - whole) as real == (t as real - r) * dx as real
  {
    assert (t * dx) as real == t as real * dx as real;
    assert (t as real - r) * dx as real == t as real * dx as real - r * dx as real;
  }

  lemma BelowProduct(d: real, w: real, p: real)
    requires -1.0 < d < 1.0 && w > 0.0 && p == d * w
    ensures -w < p < w
  {
    assert (1.0 - d) * w > 0.0 && (1.0 + d) * w > 0.0;
  }

  lemma BetweenReals(p: real, w: real, k: int, e: int)
    requires -w < p < w && w == k as real && p == e as real
    ensures -k < e < k
  {
  }

  lemma ErrorBound(d: real, w: real, p: real, k: int, e: int)
    requires -1.0 < d < 1.0 && k > 0 && w == k as real && p == d * w && p == e as real
    ensures -k < e < k
  {
    BelowProduct(d, w, p);
    BetweenReals(p, w, k, e);
  }

  lemma BothNegated(d: real, w: real)
    ensures -d * -w == d * w
  {
  }

  lemma NearLine(t: int, r: real, dx: int, whole: int)
    requires dx != 0 && -1.0 < t as real - r < 1.0 && r * dx as real == whole as real
    ensures if dx > 0 then -dx < t * dx - whole < dx else dx < t * dx - whole < -dx
  {
    var d, w, e := t as real - r, dx as real, t * dx - whole;
    ErrorOfProduct(t, r, dx, whole);
    if dx > 0 {
      ErrorBound(d, w, e as real, dx, e);
    } else {
      BothNegated(d, w);
      ErrorBound(-d, -w, e as real, -dx, e);
    }
  }

  /** The slide ends within a pixel of the line, seen along it. */
  lemma SlideIsNearLine(part: int, dx: int, dy: int)
    requires dx != 0
    ensures var e := SlideY(part, dx, dy) * dx - part * dy; if dx > 0 then -dx < e < dx else dx < e < -dx
  {
    hide Truncated, Slope;
    var r := part as real * Slope(dx, dy);
    TruncationIsNear(r);
    SlopeTimes(part, dx, dy);
    NearLine(SlideY(part, dx, dy), r, dx, part * dy);
  }

  /** One cut with the exact slope: the moved end lies on the edge it was beyond,
      and within a pixel of the line it comes from. */
  lemma CutIsNearLine(s: Segment, clip: Rect)
    requires clip.w > 0 && clip.h > 0 && !Accepted(s, clip) && !Rejected(s, clip)
    ensures var o := Oriented(s, clip);
            var t := Cut(o, clip, Slide(o, clip));
            var e := (t.y1 - o.y1) * (o.x2 - o.x1) - (t.x1 - o.x1) * (o.y2 - o.y1);
            var long := Max(Reach(o.x1, o.x2), Reach(o.y1, o.y2));
            -long < e < long && t.x2 == o.x2 && t.y2 == o.y2
  {
    hide SlideX, SlideY;
    var o := Oriented(s, clip);
    var code := ClipCode(o.x1, o.y1, clip);
    var dx, dy := o.x2 - o.x1, o.y2 - o.y1;
    if code.left || code.right {
      SlideIsNearLine((if code.left then clip.x else clip.x + clip.w - 1) - o.x1, dx, dy);
    } else if dx != 0 {
      var part := (if code.bottom then clip.y + clip.h - 1 else clip.y) - o.y1;
      InverseSlope(part, dx, dy);
      SlideIsNearLine(part, dy, dx);
    }
  }

  predicate AlongAxis(s: Segment) {
    s.x1 == s.x2 || s.y1 == s.y2
  }

  lemma LevelSlide(part: int, dx: int)
    requires dx != 0
    ensures SlideY(part, dx, 0) == 0
  {
    assert part as real * (0.0 / dx as real) == 0.0;
  }

  /** Cutting a line along an axis leaves the pixels of it in the clip rectangle. */
  lemma AxisCut(s: Segment, clip: Rect)
    requires clip.w > 0 && clip.h > 0 && AlongAxis(s) && !Accepted(s, clip) && !Rejected(s, clip)
    ensures var t := Cut(Oriented(s, clip), clip, Slide(Oriented(s, clip), clip));
            AlongAxis(t) && Meet(Spanned(t), clip) == Meet(Spanned(s), clip)
  {
    hide SlideX, SlideY;
    var o := Oriented(s, clip);
    var code := ClipCode(o.x1, o.y1, clip);
    if code.left || code.right {
      LevelSlide((if code.left then clip.x else clip.x + clip.w - 1) - o.x1, o.x2 - o.x1);
    }
  }

  lemma {:induction false} AxisRun(s: Segment, clip: Rect, rounds: nat)
    requires clip.w > 0 && clip.h > 0 && AlongAxis(s) && rounds >= Beyond(s, clip)
    ensures var r := ClipRun(s, clip, ExactSlides(s, clip, rounds));
            && (r.Accept? <==> !Meet(Spanned(s), clip).Empty())
            && (r.Accept? ==> Spanned(r.line) == Meet(Spanned(s), clip))
            && (r.Accept? || r.Reject?)
    decreases rounds
  {
    hide Slide;
    RejectedIsOutside(s, clip);
    if !Accepted(s, clip) && !Rejected(s, clip) {
      SlideIsSteady(s, clip);
      CutLeavesOneEdge(s, clip, Slide(Oriented(s, clip), clip));
      AxisCut(s, clip);
      var o := Oriented(s, clip);
      AxisRun(Cut(o, clip, Slide(o, clip)), clip, rounds - 1);
      var slides := ExactSlides(s, clip, rounds);
      assert slides[1..] == ExactSlides(Cut(o, clip, Slide(o, clip)), clip, rounds - 1);
    }
  }

  /** With exact slopes a line along an axis is drawn exactly if it has a pixel in
      the clip rectangle, and what is drawn are all its pixels there. */
  lemma AxisLineIsClipped(s: Segment, clip: Rect)
    requires clip.w > 0 && clip.h > 0 && AlongAxis(s)
    ensures var r := ClipRun(s, clip, ExactSlides(s, clip, 4));
            && (r.Accept? <==> exists x, y :: Spanned(s).Has(x, y) && clip.Has(x, y))
            && (r.Accept? ==> Spanned(r.line) == Meet(Spanned(s), clip))
  {
    AxisRun(s, clip, 4);
    var m := Meet(Spanned(s), clip);
    if !m.Empty() {
      MeetHas(Spanned(s), clip, m.x, m.y);
    }
  }
}
