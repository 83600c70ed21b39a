/** Straight lines: which pixels LineColor draws between two visible ends. */
module LineDrawing {
  import opened Arithmetic
  import opened Words
  import opened PixelFormats
  import opened Rects
  import opened Surfaces
  import opened Drawing
  import opened Pixels
  import opened LineClipping

  // ----- pixels along a line -----

  function Long(s: Segment): int {
    Max(Reach(s.x1, s.x2), Reach(s.y1, s.y2))
  }

  function Short(s: Segment): int {
    Min(Reach(s.x1, s.x2), Reach(s.y1, s.y2))
  }

  /** n steps from one coordinate in the direction of another. */
  function Go(from: int, to: int, n: int): int {
    if from <= to then from + n else from - n
  }

  /** The pixel k steps along the longer axis and j along the shorter one. */
  function Along(s: Segment, k: int, j: int): Point {
    if Reach(s.x1, s.x2) < Reach(s.y1, s.y2)
    then Point(Go(s.x1, s.x2, j), Go(s.y1, s.y2, k))
    else Point(Go(s.x1, s.x2, k), Go(s.y1, s.y2, j))
  }

  /** A path along the line: one pixel for every step along the longer axis,
      from end to end, each touching the one before, inside the bounding box. */
  ghost predicate IsWalk(points: seq<Point>, s: Segment) {
    && |points| == Long(s) + 1
    && points[0] == Point(s.x1, s.y1) && points[Long(s)] == Point(s.x2, s.y2)
    && (forall k :: 0 < k < |points| ==> Touches(points[k - 1], points[k]))
    && (forall p :: p in points ==> Segment(p.x, p.y, p.x, p.y).Within(s))
    && Distinct(points)
  }

  predicate Touches(p: Point, q: Point) {
    -1 <= p.x - q.x <= 1 && -1 <= p.y - q.y <= 1 && p != q
  }

  /** Any rule for the shorter axis that starts at its start, ends at its end
      and never takes more than one step at a time gives a walk. */
  ghost predicate IsRule(j: int -> int, long: int, short: int) {
    && j(0) == 0 && j(long) == short
    && forall k :: 0 <= k < long ==> StepsAt(j, k)
  }

  predicate StepsAt(j: int -> int, k: int) {
    j(k) <= j(k + 1) <= j(k) + 1
  }

  function Walk(s: Segment, j: int -> int): seq<Point> {
    seq(Long(s) + 1, k => Along(s, k, j(k)))
  }

  lemma {:induction false} RuleIsMonotone(j: int -> int, long: int, short: int, k: int, k': int)
    requires IsRule(j, long, short) && 0 <= k <= k' <= long
    ensures j(k) <= j(k')
    decreases k'
  {
    if k < k' {
      RuleIsMonotone(j, long, short, k, k' - 1);
      assert StepsAt(j, k' - 1);
    }
  }

  lemma AlongEnds(s: Segment)
    ensures Along(s, 0, 0) == Point(s.x1, s.y1) && Along(s, Long(s), Short(s)) == Point(s.x2, s.y2)
  {
  }

  lemma AlongStep(s: Segment, k: int, j: int, j': int)
    requires j <= j' <= j + 1
    ensures Touches(Along(s, k, j), Along(s, k + 1, j'))
  {
  }

  lemma AlongWithin(s: Segment, k: int, j: int)
    requires 0 <= k <= Long(s) && 0 <= j <= Short(s)
    ensures var p := Along(s, k, j); Segment(p.x, p.y, p.x, p.y).Within(s)
  {
  }

  lemma AlongDiffers(s: Segment, k: int, j: int, k': int, j': int)
    requires k != k'
    ensures Along(s, k, j) != Along(s, k', j')
  {
  }

  lemma AlongBack(s: Segment, k: int, j: int)
    requires 0 <= k <= Long(s) && 0 <= j <= Short(s)
    ensures Along(s.Swapped(), k, j) == Along(s, Long(s) - k, Short(s) - j)
  {
  }

  lemma RuleGivesWalk(s: Segment, j: int -> int)
    requires IsRule(j, Long(s), Short(s))
    ensures IsWalk(Walk(s, j), s)
  {
    hide Along, Long, Short, Touches;
    AlongEnds(s);
    SwappedSizes(s);
    var points := Walk(s, j);
    forall k | 0 < k < |points|
      ensures Touches(points[k - 1], points[k])
    {
      assert StepsAt(j, k - 1);
      AlongStep(s, k - 1, j(k - 1), j(k));
    }
    forall p | p in points
      ensures Segment(p.x, p.y, p.x, p.y).Within(s)
    {
      var k :| 0 <= k < |points| && points[k] == p;
      RuleBounds(j, Long(s), Short(s), k);
      AlongWithin(s, k, j(k));
    }
    forall k, k' | 0 <= k < k' < |points|
      ensures points[k] != points[k']
    {
      AlongDiffers(s, k, j(k), k', j(k'));
    }
  }

  // ----- the rule of the opaque branch -----

  /** Run lengths on lengths one larger than the distances, rounded down. */
  ghost function OpaqueRule(long: int, short: int): int -> int {
    k => if long < 0 then 0 else k * (short + 1) / (long + 1)
  }

  lemma OpaqueRuleIsRule(long: int, short: int)
    requires 0 <= short <= long
    ensures IsRule(OpaqueRule(long, short), long, short)
  {
    OpaqueEnd(long + 1, short + 1);
    forall k | 0 <= k < long
      ensures StepsAt(OpaqueRule(long, short), k)
    {
      OpaqueStep(k, long + 1, short + 1);
    }
  }

  lemma OpaqueEnd(n: nat, m: nat)
    requires 0 < m <= n
    ensures (n - 1) * m / n == m - 1
  {
    Distribute(n, 1, m);
    Distribute(m, 1, n);
    DivModUnique((n - 1) * m, n, m - 1, n - m);
  }

  lemma OpaqueStep(k: nat, n: nat, m: nat)
    requires 0 < m <= n
    ensures k * m / n <= (k + 1) * m / n <= k * m / n + 1
  {
    Distribute(k, 1, m);
    QuotientGrows(k * m, m, n);
  }

  /** Every pixel of an opaque line is less than one pixel away from the line. */
  lemma OpaqueIsWithinOne(long: int, short: int, k: int)
    requires 0 <= short <= long && 0 <= k <= long && 0 < long
    ensures var e := OpaqueRule(long, short)(k) * long - k * short; -long < e < long
  {
    var n, m := long + 1, short + 1;
    var j, r := k * m / n, k * m % n;
    assert k * m == j * n + r;
    OpaqueError(long, short, k, j, r);
    LessProduct(k, 0, long - short);
    LessProduct(long, 0, r);
    LessProduct(long, r, long);
    LessProduct(k, long - short, long);
    LessProduct(long, k, long);
    ErrorWithin(j * long - k * short, long, k * (long - short) - r * long);
  }

  lemma ErrorWithin(e: int, long: int, total: int)
    requires long > 0 && e * (long + 1) == total && -(long * long) <= total <= long * long
    ensures -long < e < long
  {
    if e >= long {
      LessProduct(long + 1, long, e);
      Distribute(long, 1, long);
    } else if e <= -long {
      LessProduct(long + 1, long, -e);
      Distribute(long, 1, long);
    }
  }

  lemma OpaqueError(long: int, short: int, k: int, j: int, r: int)
    requires k * (short + 1) == j * (long + 1) + r
    ensures (j * long - k * short) * (long + 1) == k * (long - short) - r * long
  {
    assert (j * long) * (long + 1) == long * (j * (long + 1));
    Distribute(j * long, k * short, long + 1);
    assert long * (k * (short + 1)) == k * (long * short) + k * long;
    assert (k * short) * (long + 1) == k * (long * short) + k * short;
    Distribute(k * (short + 1), r, long);
    Distribute(long, short, k);
  }

  // ----- the rule of the blending branch -----

  /** The nearest pixel to the line. Halfway between two, the one further along
      when the longer coordinate grows, the one less far when it shrinks. */
  ghost function NearestRule(long: int, short: int, up: bool): int -> int {
    k => if long <= 0 then 0 else (2 * (k * short) + long - (if up then 0 else 1)) / (2 * long)
  }

  lemma NearestIsWithinHalf(long: int, short: int, up: bool, k: int)
    requires 0 <= short <= long && 0 < long
    ensures var e := 2 * (NearestRule(long, short, up)(k) * long) - 2 * (k * short);
            if up then -long < e <= long else -long <= e < long
  {
    var n := 2 * (k * short) + long - (if up then 0 else 1);
    var q := n / (2 * long);
    assert n == q * (2 * long) + n % (2 * long);
    assert q * (2 * long) == 2 * (q * long);
  }

  /** Only one pixel is that near. */
  lemma NearestIsUnique(long: int, short: int, up: bool, k: int, j: int)
    requires 0 <= short <= long && 0 < long
    requires var e := 2 * (j * long) - 2 * (k * short); if up then -long < e <= long else -long <= e < long
    ensures j == NearestRule(long, short, up)(k)
  {
    NearestIsWithinHalf(long, short, up, k);
    var q := NearestRule(long, short, up)(k);
    if q < j {
      NextMultiple(q, j, long);
    } else if j < q {
      NextMultiple(j, q, long);
    }
  }

  lemma NearestRuleIsRule(long: int, short: int, up: bool)
    requires 0 <= short <= long
    ensures IsRule(NearestRule(long, short, up), long, short)
  {
    if long > 0 {
      NearestIsUnique(long, short, up, 0, 0);
      NearestIsUnique(long, short, up, long, short);
      forall k | 0 <= k < long
        ensures StepsAt(NearestRule(long, short, up), k)
      {
        Distribute(k, 1, short);
        QuotientGrows(2 * (k * short) + long - (if up then 0 else 1), 2 * short, 2 * long);
      }
    }
  }

  /** The longer coordinate grows from the first end to the second. */
  predicate Rising(s: Segment) {
    if Reach(s.x1, s.x2) <= Reach(s.y1, s.y2) then s.y1 <= s.y2 else s.x1 <= s.x2
  }

  ghost function OpaquePixels(s: Segment): seq<Point> {
    Walk(s, OpaqueRule(Long(s), Short(s)))
  }

  ghost function BlendedPixels(s: Segment): seq<Point> {
    Walk(s, NearestRule(Long(s), Short(s), Rising(s)))
  }

  lemma LinesAreWalks(s: Segment)
    ensures IsWalk(OpaquePixels(s), s) && IsWalk(BlendedPixels(s), s)
  {
    OpaqueRuleIsRule(Long(s), Short(s));
    NearestRuleIsRule(Long(s), Short(s), Rising(s));
    RuleGivesWalk(s, OpaqueRule(Long(s), Short(s)));
    RuleGivesWalk(s, NearestRule(Long(s), Short(s), Rising(s)));
  }

  /** A blended line is the same set of pixels from either end. */
  lemma BlendedLineIsReversible(s: Segment, k: int)
    requires 0 <= k <= Long(s)
    ensures |BlendedPixels(s)| == |BlendedPixels(s.Swapped())| == Long(s) + 1
    ensures BlendedPixels(s.Swapped())[k] == BlendedPixels(s)[Long(s) - k]
  {
    hide NearestRule, Along, IsRule, Long, Short, Rising, Walk;
    SwappedSizes(s);
    var long, short := Long(s), Short(s);
    var there, back := NearestRule(long, short, Rising(s)), NearestRule(long, short, Rising(s.Swapped()));
    NearestRuleIsRule(long, short, Rising(s.Swapped()));
    RuleBounds(back, long, short, k);
    AlongBack(s, k, back(k));
    WalkAt(s, there, long - k);
    WalkAt(s.Swapped(), back, k);
    if long > 0 {
      NearestFromOtherEnd(long, short, Rising(s), k);
    } else {
      NearestRuleIsRule(long, short, Rising(s));
      RuleBounds(there, long, short, long - k);
    }
  }

  lemma SwappedSizes(s: Segment)
    ensures Long(s.Swapped()) == Long(s) && Short(s.Swapped()) == Short(s)
    ensures 0 <= Short(s) <= Long(s)
    ensures Long(s) > 0 ==> Rising(s.Swapped()) == !Rising(s)
  {
  }

  lemma WalkAt(s: Segment, j: int -> int, k: int)
    requires 0 <= k <= Long(s)
    ensures |Walk(s, j)| == Long(s) + 1 && Walk(s, j)[k] == Along(s, k, j(k))
  {
  }

  lemma RuleBounds(j: int -> int, long: int, short: int, k: int)
    requires IsRule(j, long, short) && 0 <= k <= long
    ensures 0 <= j(k) <= short
  {
    RuleIsMonotone(j, long, short, 0, k);
    RuleIsMonotone(j, long, short, k, long);
  }

  lemma NearestFromOtherEnd(long: int, short: int, up: bool, k: int)
    requires 0 <= short <= long && 0 < long
    ensures NearestRule(long, short, !up)(k) == short - NearestRule(long, short, up)(long - k)
  {
    hide NearestRule;
    var j := NearestRule(long, short, up)(long - k);
    NearestIsWithinHalf(long, short, up, long - k);
    Distribute(long, k, short);
    Distribute(short, j, long);
    NearestIsUnique(long, short, !up, k, short - j);
  }

  // ----- when an opaque line is the same from either end -----

  /** Pixel k of the way there is pixel long - k of the way back. */
  predicate MeetsAt(n: int, m: int, k: int)
    requires n > 0
  {
    k * m / n + (n - 1 - k) * m / n == m - 1
  }

  lemma DividesEvenly(n: nat, m: nat)
    requires 0 < m && n % m == 0
    ensures n == n / m * m && 0 <= n / m
  {
    QuotientOrder(0, n, m);
  }

  /** On lengths n and m where m divides n both ways agree at every pixel. */
  lemma DividingLengthsMeet(n: nat, m: nat, k: nat)
    requires 0 < m && n % m == 0 && k < n
    ensures MeetsAt(n, m, k)
  {
    hide MeetsAt;
    var q := n / m;
    DividesEvenly(n, m);
    assert q != 0;
    assert k == k / q * q + k % q;
    QuotientOrder(0, k, q);
    RunsMeet(n, m, q, k / q, k % q);
  }

  /** Pixel k is in run a, at place b of it; on the way back it is in the
      opposite run at the opposite place. */
  lemma RunsMeet(n: nat, m: nat, q: nat, a: nat, b: nat)
    requires 0 < m && 0 < q && n == q * m && b < q && a * q + b < n
    ensures MeetsAt(n, m, a * q + b)
  {
    var k, k' := a * q + b, (m - 1 - a) * q + (q - 1 - b);
    Distribute(m, a, q);
    Distribute(m - a, 1, q);
    assert k + k' == n - 1;
    RunOf(n, m, q, a, b);
    RunOf(n, m, q, m - 1 - a, q - 1 - b);
  }

  lemma RunOf(n: nat, m: nat, q: nat, a: int, b: nat)
    requires 0 < m && n == q * m && b < q
    ensures (a * q + b) * m / n == a
  {
    Distribute(a * q, b, m);
    assert a * q * m == a * (q * m);
    NextMultiple(b, q, m);
    LessProduct(b, 0, m);
    DivModUnique((a * q + b) * m, n, a, b * m);
  }

  /** Where m does not divide n they part at pixel n / m, the end of the first run. */
  lemma OtherLengthsPart(n: nat, m: nat)
    requires 0 < m <= n && n % m != 0
    ensures 0 < n / m < n && !MeetsAt(n, m, n / m)
  {
    var k, r := n / m, n % m;
    assert n == k * m + r;
    assert 0 < k by {
      if k <= 0 {
        NextMultiple(k, 1, m);
      }
    }
    NextMultiple(1, m, k);
    DivModUnique(k * m, n, 0, k * m);
    Distribute(n, k, m);
    Distribute(n - k, 1, m);
    Distribute(m, 2, n);
    DivModUnique((n - 1 - k) * m, n, m - 2, n + r - m);
  }

  lemma SameStepSameOffset(s: Segment, k: int, j: int, j': int)
    requires Along(s, k, j) == Along(s, k, j')
    ensures j == j'
  {
  }

  /** Pixel k of a walk is pixel k of another one, or not in it at all. */
  lemma WalkHas(s: Segment, rule: int -> int, k: int, j: int)
    requires 0 <= k <= Long(s)
    ensures Along(s, k, j) in Walk(s, rule) <==> rule(k) == j
  {
    hide Along, Long;
    var points := Walk(s, rule);
    if rule(k) == j {
      WalkAt(s, rule, k);
      assert points[k] in points;
    }
    if Along(s, k, j) in points {
      var i :| 0 <= i < |points| && points[i] == Along(s, k, j);
      WalkAt(s, rule, i);
      if i != k {
        AlongDiffers(s, i, rule(i), k, j);
      }
      SameStepSameOffset(s, k, rule(k), j);
    }
  }

  /** The way back, seen from the start of the line. */
  lemma BackAt(s: Segment, k: int)
    requires 0 <= k <= Long(s)
    ensures var j := OpaqueRule(Long(s), Short(s));
            OpaquePixels(s.Swapped())[Long(s) - k] == Along(s, k, Short(s) - j(Long(s) - k))
    ensures |OpaquePixels(s.Swapped())| == Long(s) + 1
  {
    hide Along, Long, Short, Walk, IsRule, OpaqueRule;
    SwappedSizes(s);
    var j := OpaqueRule(Long(s), Short(s));
    OpaqueRuleIsRule(Long(s), Short(s));
    RuleBounds(j, Long(s), Short(s), Long(s) - k);
    WalkAt(s.Swapped(), j, Long(s) - k);
    AlongBack(s, Long(s) - k, j(Long(s) - k));
  }

  /** Pixel k is drawn both ways exactly if both ways meet there. */
  lemma DrawnBothWays(s: Segment, k: int)
    requires 0 <= k <= Long(s)
    ensures |OpaquePixels(s)| == |OpaquePixels(s.Swapped())| == Long(s) + 1
    ensures OpaquePixels(s.Swapped())[Long(s) - k] in OpaquePixels(s) <==> MeetsAt(Long(s) + 1, Short(s) + 1, k)
    ensures MeetsAt(Long(s) + 1, Short(s) + 1, k) ==> OpaquePixels(s)[k] == OpaquePixels(s.Swapped())[Long(s) - k]
  {
    hide Along, Walk, Long, Short;
    SwappedSizes(s);
    var j := OpaqueRule(Long(s), Short(s));
    WalkAt(s, j, k);
    BackAt(s, k);
    WalkHas(s, j, k, Short(s) - j(Long(s) - k));
  }

  /** An opaque line is the same set of pixels from either end exactly if its
      pixels divide evenly among the pixels across. */
  lemma OpaqueLineIsReversible(s: Segment)
    ensures Dots(OpaquePixels(s)) == Dots(OpaquePixels(s.Swapped())) <==> (Long(s) + 1) % (Short(s) + 1) == 0
  {
    hide Walk, Long, Short, MeetsAt, OpaquePixels;
    SwappedSizes(s);
    var there, back := OpaquePixels(s), OpaquePixels(s.Swapped());
    var long, n, m := Long(s), Long(s) + 1, Short(s) + 1;
    if n % m == 0 {
      DrawnBothWays(s, 0);
      forall k | 0 <= k < |there|
        ensures there[k] == back[|there| - 1 - k]
      {
        DividingLengthsMeet(n, m, k);
        DrawnBothWays(s, k);
      }
      ReversedHasSame(there, back);
    } else {
      var k := n / m;
      OtherLengthsPart(n, m);
      DrawnBothWays(s, k);
      assert back[long - k] in Dots(back) && back[long - k] !in Dots(there);
    }
  }

  lemma ReversedHasSame(s: seq<Point>, t: seq<Point>)
    requires |s| == |t| && forall k :: 0 <= k < |s| ==> s[k] == t[|s| - 1 - k]
    ensures Dots(s) == Dots(t)
  {
    forall p: Point
      ensures p in s <==> p in t
    {
      if p in t {
        var k :| 0 <= k < |t| && t[k] == p;
        assert s[|t| - 1 - k] == p;
      }
    }
  }

  /** A line of three pixels across two is not: from (0, 0) to (2, 1) it turns at
      the end, and on the way back it turns at the end as well. */
  lemma OpaqueLineHasDirection()
    ensures Point(1, 0) in OpaquePixels(Segment(0, 0, 2, 1))
    ensures Point(1, 0) !in OpaquePixels(Segment(2, 1, 0, 0))
  {
    hide Walk;
    var s := Segment(0, 0, 2, 1);
    WalkAt(s, OpaqueRule(2, 1), 1);
    assert OpaquePixels(s)[1] == Point(1, 0);
    WalkAt(s.Swapped(), OpaqueRule(2, 1), 0);
    forall k | 0 <= k <= 2
      ensures OpaquePixels(s.Swapped())[k] != Point(1, 0)
    {
      WalkAt(s.Swapped(), OpaqueRule(2, 1), k);
    }
  }

  // ----- LineColor -----

  lemma OneMoreDot(f: Paint, before: Image, mid: Image, now: Image, points: seq<Point>, k: nat)
    requires before.Valid() && mid.Valid() && k < |points| && Distinct(points)
    requires Painted(f, before, mid, Dots(points[..k])) && Painted(f, mid, now, iset{points[k]})
    ensures k + 1 <= |points| && Painted(f, before, now, Dots(points[..k + 1]))
  {
    hide Painted;
    PaintedBoth(f, before, mid, now, Dots(points[..k]), iset{points[k]});
    assert points[..k + 1] == points[..k] + [points[k]];
    assert Dots(points[..k]) + iset{points[k]} == Dots(points[..k + 1]);
  }

  function Position(p: Point, pitch: int): int {
    p.y * pitch + p.x
  }

  /** The distance in the pixel array of a step along the shorter axis and of
      one along the longer axis. */
  function Strides(s: Segment, pitch: int): (int, int) {
    var pixx, pixy := if s.x1 <= s.x2 then 1 else -1, if s.y1 <= s.y2 then pitch else -pitch;
    if Reach(s.x1, s.x2) < Reach(s.y1, s.y2) then (pixx, pixy) else (pixy, pixx)
  }

  lemma StepsInArray(s: Segment, pitch: int, k: int, j: int)
    ensures Position(Along(s, k, j + 1), pitch) == Position(Along(s, k, j), pitch) + Strides(s, pitch).0
    ensures Position(Along(s, k + 1, j), pitch) == Position(Along(s, k, j), pitch) + Strides(s, pitch).1
  {
    var p := Along(s, k, j);
    Distribute(p.y, 1, pitch);
  }

  /** The opaque branch walks through the pixel array with a pointer. */
  method DrawOpaque(surface: Surface, s: Segment, color: Word)
    requires surface.Valid() && surface.Contains(s.x1, s.y1) && surface.Contains(s.x2, s.y2)
    modifies surface.data
    ensures surface.Valid()
    ensures Painted(Solid(color), old(surface.Content()), surface.Content(), Dots(OpaquePixels(s)))
  {
    hide Painted, Long, Short, Along, IsWalk, Strides, Walk, OpaqueRule;
    ghost var before, points, rule := surface.Content(), OpaquePixels(s), OpaqueRule(Long(s), Short(s));
    var pitch := surface.stride / 4;
    var dx, dy, pixx, pixy, pixel := Setup(s, pitch);
    LinesAreWalks(s);
    WalkLength(points, s);
    PaintedNothing(Solid(color), before);
    assert Dots(points[..0]) == iset{};
    var x, y := 0, 0;
    ghost var j := 0;
    while x < dx
      invariant surface.Valid() && surface.Content().SameShape(before)
      invariant 0 <= x <= dx && 0 <= y < dx && x * dy == j * dx + y
      invariant pixel == Position(Along(s, x, j), pitch)
      invariant Painted(Solid(color), before, surface.Content(), Dots(points[..x]))
    {
      OpaqueAt(s, x, j, y);
      WalkAt(s, rule, x);
      PixelOfWalk(surface.Content(), points, s, x);
      ghost var mid := surface.Content();
      surface.data[pixel] := color;
      OnePixel(Solid(color), mid, surface.Content(), points[x]);
      OneMoreDot(Solid(color), before, mid, surface.Content(), points, x);
      StepsInArray(s, pitch, x, j);
      StepsInArray(s, pitch, x, j + 1);
      Distribute(x, 1, dy);
      Distribute(j, 1, dx);
      y := y + dy;
      if y >= dx {
        y := y - dx;
        pixel := pixel + pixy;
        j := j + 1;
      }
      x := x + 1;
      pixel := pixel + pixx;
    }
    assert points[..dx] == points;
  }

  /** The variables of the opaque branch before its loop. */
  method Setup(s: Segment, pitch: nat) returns (dx: int, dy: int, pixx: int, pixy: int, pixel: int)
    ensures dx == Long(s) + 1 && dy == Short(s) + 1 && 0 <= Short(s) <= Long(s)
    ensures (pixy, pixx) == Strides(s, pitch)
    ensures pixel == Position(Along(s, 0, 0), pitch)
  {
    dx, dy := s.x2 - s.x1, s.y2 - s.y1;
    var sx, sy := if dx >= 0 then 1 else -1, if dy >= 0 then 1 else -1;
    dx, dy := sx * dx + 1, sy * dy + 1;
    pixel := pitch * s.y1 + s.x1;
    pixx, pixy := sx, pitch * sy;
    if dx < dy {
      dx, dy := dy, dx;
      pixx, pixy := pixy, pixx;
    }
  }

  lemma OpaqueAt(s: Segment, x: int, j: int, y: int)
    requires 0 <= Short(s) <= Long(s) && 0 <= y < Long(s) + 1 && x * (Short(s) + 1) == j * (Long(s) + 1) + y
    ensures OpaqueRule(Long(s), Short(s))(x) == j
  {
    DivModUnique(x * (Short(s) + 1), Long(s) + 1, j, y);
  }

  lemma WalkLength(points: seq<Point>, s: Segment)
    requires IsWalk(points, s)
    ensures |points| == Long(s) + 1 && Distinct(points)
  {
  }

  lemma PixelOfWalk(image: Image, points: seq<Point>, s: Segment, k: int)
    requires image.Valid() && IsWalk(points, s) && 0 <= k < |points|
    requires image.Contains(s.x1, s.y1) && image.Contains(s.x2, s.y2)
    ensures image.Contains(points[k].x, points[k].y)
    ensures 0 <= Position(points[k], image.pitch) == image.Index(points[k].x, points[k].y) < |image.data|
  {
    assert points[k] in points;
    image.IndexInData(points[k].x, points[k].y);
  }

  /** What the blending branch knows at pixel k: it is j steps along the shorter
      axis, the nearest pixel, and d compares the next with the midpoint. */
  ghost predicate Deciding(s: Segment, k: int, j: int, d: int) {
    && j == NearestRule(Long(s), Short(s), Rising(s))(k)
    && d == 2 * ((k + 1) * Short(s)) - Long(s) - 2 * (j * Long(s))
  }

  lemma DecideFirst(s: Segment)
    requires Long(s) > 0
    ensures Deciding(s, 0, 0, 2 * Short(s) - Long(s))
  {
    NearestRuleIsRule(Long(s), Short(s), Rising(s));
  }

  lemma DecideNext(s: Segment, k: int, j: int, d: int)
    requires Long(s) > 0 && Deciding(s, k, j, d)
    ensures if d > 0 || (d == 0 && Rising(s))
            then Deciding(s, k + 1, j + 1, d - 2 * Long(s) + 2 * Short(s))
            else Deciding(s, k + 1, j, d + 2 * Short(s))
  {
    hide NearestRule;
    var long, short, up := Long(s), Short(s), Rising(s);
    NearestIsWithinHalf(long, short, up, k);
    Distribute(k, 1, short);
    Distribute(k + 1, 1, short);
    Distribute(j, 1, long);
    NearestIsUnique(long, short, up, k + 1, if d > 0 || (d == 0 && up) then j + 1 else j);
  }

  lemma AlongAt(image: Image, points: seq<Point>, s: Segment, k: int, j: int)
    requires image.Valid() && points == BlendedPixels(s) && 0 <= k <= Long(s)
    requires image.Contains(s.x1, s.y1) && image.Contains(s.x2, s.y2)
    requires j == NearestRule(Long(s), Short(s), Rising(s))(k)
    ensures |points| == Long(s) + 1 && points[k] == Along(s, k, j) && image.Contains(points[k].x, points[k].y)
  {
    hide IsWalk, Walk, NearestRule, Along, Long, Short, Rising;
    WalkAt(s, NearestRule(Long(s), Short(s), Rising(s)), k);
    LinesAreWalks(s);
    PixelOfWalk(image, points, s, k);
  }

  /** Draws pixel k of a blended line. */
  method DrawAt(surface: Surface, s: Segment, x: int, y: int, f: Paint, ghost k: int, ghost j: int, ghost d: int,
      ghost before: Image)
    requires surface.Valid() && surface.Contains(s.x1, s.y1) && surface.Contains(s.x2, s.y2)
    requires 0 <= k <= Long(s) && Point(x, y) == Along(s, k, j) && Deciding(s, k, j, d)
    requires before.Valid() && |BlendedPixels(s)| == Long(s) + 1
    requires Painted(f, before, surface.Content(), Dots(BlendedPixels(s)[..k]))
    modifies surface.data
    ensures surface.Valid()
    ensures Painted(f, before, surface.Content(), Dots(BlendedPixels(s)[..k + 1]))
  {
    hide Painted, Walk, NearestRule, Along, Long, Short, Rising, IsWalk;
    ghost var points, mid := BlendedPixels(s), surface.Content();
    AlongAt(mid, points, s, k, j);
    LinesAreWalks(s);
    WalkLength(points, s);
    SetPixelNoClip(surface, Point(x, y), f);
    OneMoreDot(f, before, mid, surface.Content(), points, k);
  }

  /** The blending branch for lines that are wider than high. */
  method DrawWide(surface: Surface, s: Segment, f: Paint)
    requires surface.Valid() && surface.Contains(s.x1, s.y1) && surface.Contains(s.x2, s.y2)
    requires s.y1 != s.y2 && Reach(s.y1, s.y2) < Reach(s.x1, s.x2)
    modifies surface.data
    ensures surface.Valid()
    ensures Painted(f, old(surface.Content()), surface.Content(), Dots(BlendedPixels(s)))
  {
    hide Painted, Walk, BlendedPixels, Deciding;
    ghost var before := surface.Content();
    BlendedLength(s, f, before);
    var dx, dy := s.x2 - s.x1, s.y2 - s.y1;
    var sx, sy := if dx >= 0 then 1 else -1, if dy >= 0 then 1 else -1;
    var ax, ay := (if dx < 0 then -dx else dx) * 2, (if dy < 0 then -dy else dy) * 2;
    var x, y := s.x1, s.y1;
    var d := ay - ax / 2;
    ghost var k, j := 0, 0;
    DecideFirst(s);
    while x != s.x2
      invariant surface.Valid() && surface.Content().SameShape(before)
      invariant 0 <= k <= Long(s) && Point(x, y) == Along(s, k, j) && Deciding(s, k, j, d)
      invariant Painted(f, before, surface.Content(), Dots(BlendedPixels(s)[..k]))
      decreases Long(s) - k
    {
      DrawAt(surface, s, x, y, f, k, j, d, before);
      DecideNext(s, k, j, d);
      if d > 0 || (d == 0 && sx == 1) {
        y := y + sy;
        d := d - ax;
        j := j + 1;
      }
      x := x + sx;
      d := d + ay;
      k := k + 1;
    }
    DrawAt(surface, s, x, y, f, k, j, d, before);
  }

  /** Along a line that is at least as high as wide; on a diagonal both steps are
      the same. */
  lemma AlongSteep(s: Segment, k: int, j: int)
    requires Reach(s.x1, s.x2) <= Reach(s.y1, s.y2) && (Reach(s.x1, s.x2) == Reach(s.y1, s.y2) ==> j == k)
    ensures Along(s, k, j) == Point(Go(s.x1, s.x2, j), Go(s.y1, s.y2, k))
    ensures Long(s) == Reach(s.y1, s.y2) && Short(s) == Reach(s.x1, s.x2) && (Rising(s) <==> s.y1 <= s.y2)
  {
  }

  /** The blending branch for the other lines. */
  method DrawSteep(surface: Surface, s: Segment, f: Paint)
    requires surface.Valid() && surface.Contains(s.x1, s.y1) && surface.Contains(s.x2, s.y2)
    requires s.x1 != s.x2 && Reach(s.x1, s.x2) <= Reach(s.y1, s.y2)
    modifies surface.data
    ensures surface.Valid()
    ensures Painted(f, old(surface.Content()), surface.Content(), Dots(BlendedPixels(s)))
  {
    hide Painted, Walk, BlendedPixels, Deciding, Along, Long, Short, Rising;
    AlongSteep(s, 0, 0);
    ghost var before := surface.Content();
    BlendedLength(s, f, before);
    var dx, dy := s.x2 - s.x1, s.y2 - s.y1;
    var sx, sy := if dx >= 0 then 1 else -1, if dy >= 0 then 1 else -1;
    var ax, ay := (if dx < 0 then -dx else dx) * 2, (if dy < 0 then -dy else dy) * 2;
    var x, y := s.x1, s.y1;
    var d := ax - ay / 2;
    ghost var k, j := 0, 0;
    DecideFirst(s);
    while y != s.y2
      invariant surface.Valid() && surface.Content().SameShape(before)
      invariant 0 <= k <= Long(s) && x == Go(s.x1, s.x2, j) && y == Go(s.y1, s.y2, k) && Deciding(s, k, j, d)
      invariant ax == ay ==> j == k && d == Long(s)
      invariant Painted(f, before, surface.Content(), Dots(BlendedPixels(s)[..k]))
      decreases Long(s) - k
    {
      AlongSteep(s, k, j);
      DrawAt(surface, s, x, y, f, k, j, d, before);
      DecideNext(s, k, j, d);
      if d > 0 || (d == 0 && sy == 1) {
        x := x + sx;
        d := d - ay;
        j := j + 1;
      }
      y := y + sy;
      d := d + ax;
      k := k + 1;
    }
    AlongSteep(s, k, j);
    DrawAt(surface, s, x, y, f, k, j, d, before);
  }

  lemma BlendedLength(s: Segment, f: Paint, image: Image)
    requires image.Valid()
    ensures |BlendedPixels(s)| == Long(s) + 1
    ensures BlendedPixels(s)[..Long(s) + 1] == BlendedPixels(s)
    ensures Painted(f, image, image, Dots(BlendedPixels(s)[..0]))
  {
    assert Dots(BlendedPixels(s)[..0]) == iset{};
    PaintedNothing(f, image);
  }

  /** VLineSolidColor: the end points may come in either order. */
  method VLineSolidColor(surface: Surface, x: int, y1: int, y2: int, color: Word)
    requires surface.Valid() && surface.ClipFits()
    modifies surface.data
    ensures surface.Valid()
    ensures Painted(Solid(color), old(surface.Content()), surface.Content(),
                    Box(Column(x, Min(y1, y2), Max(y1, y2))) * Box(surface.clip.Value()))
  {
    ghost var before := surface.Content();
    var clip := surface.clip.Value();
    var top, bottom := y1, y2;
    if top > bottom {
      top, bottom := bottom, top;
    }
    ghost var wanted := Box(Column(x, top, bottom)) * Box(clip);
    if clip.w == 0 || clip.h == 0 || x < clip.x || x > clip.x + clip.w - 1
       || bottom < clip.y || top > clip.y + clip.h - 1 {
      PaintedNothing(Solid(color), before);
      assert wanted == iset{};
      return;
    }
    if top < clip.y {
      top := clip.y;
    }
    if bottom > clip.y + clip.h - 1 {
      bottom := clip.y + clip.h - 1;
    }
    FillRows(surface, Column(x, top, bottom), Solid(color));
    assert Box(Column(x, top, bottom)) == wanted;
  }

  function Column(x: int, top: int, bottom: int): Rect {
    Rect(x, top, 1, bottom - top + 1)
  }

  /** VLineColor. End points the wrong way round are drawn only when the colour
      is opaque. */
  method VLineColor(surface: Surface, x: int, y1: int, y2: int, color: Word)
    requires surface.Valid() && surface.ClipFits()
    modifies surface.data
    ensures surface.Valid()
    ensures Painted(FillPaint(color), old(surface.Content()), surface.Content(),
                    Box(DrawnColumn(x, y1, y2, color)) * Box(surface.clip.Value()))
  {
    if color.a == 255 {
      VLineSolidColor(surface, x, y1, y2, color);
    } else {
      FillRectColor(surface, Some(Column(x, y1, y2)), color);
    }
  }

  function DrawnColumn(x: int, y1: int, y2: int, color: Word): Rect {
    if color.a == 255 then Column(x, Min(y1, y2), Max(y1, y2)) else Column(x, y1, y2)
  }

  /** The pixels LineColor paints for a line whose ends are visible. */
  ghost function LinePixels(s: Segment, color: Word, kind: FormatType): Area {
    if s.x1 == s.x2 || s.y1 == s.y2 then Box(Spanned(s))
    else if color.a != 255 then Dots(BlendedPixels(s))
    else if kind.ARGB? then Dots(OpaquePixels(s))
    else iset{}
  }

  /** Lines along an axis fill, other lines and single points set pixels. */
  function LinePaint(s: Segment, color: Word, kind: FormatType): Paint {
    if (s.x1 == s.x2) != (s.y1 == s.y2) then FillPaint(color) else PixelPaint(color, kind)
  }

  /** LineColor: what ClipLine leaves of the line is drawn, each of its pixels
      once. An opaque line that is not along an axis is drawn only on ARGB. */
  method LineColor(surface: Surface, line: Segment, slides: seq<int>, color: Word) returns (clipped: Clipped)
    requires surface.Valid() && surface.ClipFits()
    modifies surface.data
    ensures surface.Valid() && clipped == ClipRun(line, surface.clip.Value(), slides)
    ensures clipped.Accept? ==>
      Painted(LinePaint(clipped.line, color, surface.format.kind), old(surface.Content()), surface.Content(),
              LinePixels(clipped.line, color, surface.format.kind))
    ensures !clipped.Accept? ==> surface.Content() == old(surface.Content())
  {
    hide Painted, ClipRun, BlendedPixels, OpaquePixels, FillPaint, PixelPaint;
    clipped := ClipLine(surface.clip.Value(), line, slides);
    if !clipped.Accept? {
      return;
    }
    AcceptedEndsAreVisible(line, surface.clip.Value(), slides);
    var s, kind := clipped.line, surface.format.kind;
    var f := PixelPaint(color, kind);
    StraightIsClip(s, surface.clip.Value());
    if s.x1 == s.x2 {
      if s.y1 < s.y2 {
        VLineColor(surface, s.x1, s.y1, s.y2, color);
      } else if s.y1 > s.y2 {
        VLineColor(surface, s.x1, s.y2, s.y1, color);
      } else {
        SetPixel(surface, Point(s.x1, s.y1), f);
      }
      return;
    }
    if s.y1 == s.y2 {
      if s.x1 < s.x2 {
        HLineColor(surface, Span(s.x1, s.x2, s.y1), color);
      } else {
        HLineColor(surface, Span(s.x2, s.x1, s.y1), color);
      }
      return;
    }
    if color.a == 255 {
      if kind.ARGB? {
        OpaquePaint(color, kind);
        DrawOpaque(surface, s, color);
      } else {
        PaintedNothing(f, surface.Content());
      }
    } else if Reach(s.y1, s.y2) < Reach(s.x1, s.x2) {
      DrawWide(surface, s, f);
    } else {
      DrawSteep(surface, s, f);
    }
  }

  lemma OpaquePaint(color: Word, kind: FormatType)
    requires kind.ARGB? && color.a == 255
    ensures PixelPaint(color, kind) == Solid(color)
  {
  }

  /** A line along an axis whose ends are visible lies in the clip rectangle. */
  lemma StraightIsClip(s: Segment, clip: Rect)
    requires clip.Has(s.x1, s.y1) && clip.Has(s.x2, s.y2)
    ensures Box(Spanned(s)) * Box(clip) == Box(Spanned(s))
    ensures s.x1 == s.x2 ==> Spanned(s) == Column(s.x1, Min(s.y1, s.y2), Max(s.y1, s.y2))
    ensures s.y1 == s.y2 ==> Box(Spanned(s)) == Line(Span(Min(s.x1, s.x2), Max(s.x1, s.x2), s.y1))
    ensures s.x1 == s.x2 && s.y1 == s.y2 ==> Box(Spanned(s)) == iset{Point(s.x1, s.y1)}
  {
  }
}
