/** The anti-aliased line: two weighted pixels at every step, placed by a 32-bit
    accumulator that is allowed to overflow. */
module WuLine {
  import opened Arithmetic
  import opened Words
  import opened PixelFormats
  import opened Rects
  import opened Surfaces
  import opened Drawing
  import opened Pixels
  import opened LineClipping
  import opened LineDrawing

  // ----- the accumulator -----

  /** What is added at every step along the longer axis. */
  function Advance(long: nat, short: nat): nat
    requires long > 0
  {
    short * 0x1_0000 / long * 0x1_0000
  }

  lemma AdvanceBounds(long: nat, short: nat)
    requires 0 < short < long < 0x8000
    ensures 0 < Advance(long, short) < MODULUS
    ensures Advance(long, short) * long <= short * MODULUS < (Advance(long, short) + 0x1_0000) * long
  {
    var q := short * 0x1_0000 / long;
    var r := short * 0x1_0000 % long;
    assert short * 0x1_0000 == q * long + r;
    assert q != 0;
    if q >= 0x1_0000 {
      LessProduct(long, 0x1_0000, q);
    }
    Distribute(q * 0x1_0000, 0x1_0000, long);
    assert q * 0x1_0000 * long == 0x1_0000 * (q * long);
  }

  /** k additions, without overflow. */
  function Total(adj: nat, k: nat): nat {
    if k == 0 then 0 else Total(adj, k - 1) + adj
  }

  lemma {:induction false} TotalIs(adj: nat, k: nat)
    ensures Total(adj, k) == adj * k
  {
    if k > 0 {
      TotalIs(adj, k - 1);
      Distribute(k, 1, adj);
    }
  }

  /** Steps along the shorter axis after k steps along the longer one. */
  function Minor(long: nat, short: nat, k: nat): nat
    requires long > 0
  {
    Total(Advance(long, short), k) / MODULUS
  }

  /** The accumulator after k steps. */
  function Fraction(long: nat, short: nat, k: nat): nat
    requires long > 0
  {
    Total(Advance(long, short), k) % MODULUS
  }

  /** The top byte of the accumulator. */
  function Weight(long: nat, short: nat, k: nat): Byte
    requires long > 0
  {
    Fraction(long, short, k) / 0x100_0000
  }

  /** One addition modulo 2^32: the accumulator got no larger exactly when the
      line moves over. */
  lemma Accumulate(long: nat, short: nat, k: nat)
    requires 0 < short < long < 0x8000
    ensures var adj, acc := Advance(long, short), Fraction(long, short, k);
            var next := (acc + adj) % MODULUS;
            next == Fraction(long, short, k + 1)
            && Minor(long, short, k + 1) == Minor(long, short, k) + (if next <= acc then 1 else 0)
  {
    AdvanceBounds(long, short);
    var adj := Advance(long, short);
    OneTurn(Total(adj, k), adj);
  }

  lemma OneTurn(total: nat, adj: nat)
    requires 0 < adj < MODULUS
    ensures var next := (total % MODULUS + adj) % MODULUS;
            next == (total + adj) % MODULUS
            && (total + adj) / MODULUS == total / MODULUS + (if next <= total % MODULUS then 1 else 0)
  {
  }

  /** Before the end is reached both pixels of a step lie between the ends. */
  lemma MinorStaysInside(long: nat, short: nat, k: nat)
    requires 0 < short < long < 0x8000 && k < long
    ensures Minor(long, short, k) + 1 <= short
  {
    AdvanceBounds(long, short);
    var adj := Advance(long, short);
    TotalIs(adj, k);
    TotalIs(adj, long);
    LessTimes(adj, k, long);
    assert Total(adj, k) < short * MODULUS;
  }

  lemma LessTimes(x: nat, k: nat, k': nat)
    requires x > 0 && k < k'
    ensures x * k < x * k'
  {
    assert x * (k' - k) > 0;
  }

  /** The two weights place the line between the two pixels: measured in 256ths
      of a pixel it lies at most one and a k-th of 256 too low. */
  lemma WeightsAreAccurate(long: nat, short: nat, k: nat)
    requires 0 < short < long < 0x8000
    ensures var place := 0x100 * Minor(long, short, k) + Weight(long, short, k);
            0 <= 0x100 * (k * short) - place * long < long + k * long / 0x100 + 1
  {
    AdvanceBounds(long, short);
    var adj := Advance(long, short);
    var total := Total(adj, k);
    TotalIs(adj, k);
    var place := 0x100 * Minor(long, short, k) + Weight(long, short, k);
    assert total == 0x100_0000 * place + total % 0x100_0000;
    LessProduct(k, adj * long, short * MODULUS);
    LessProduct(k, short * MODULUS, (adj + 0x1_0000) * long);
    Regroup(total, adj, k, long, short, place);
  }

  lemma Regroup(total: nat, adj: nat, k: nat, long: nat, short: nat, place: nat)
    requires total == adj * k && 0x100_0000 * place <= total < 0x100_0000 * (place + 1) && long > 0
    requires k * (adj * long) <= k * (short * MODULUS) <= k * ((adj + 0x1_0000) * long)
    ensures 0 <= 0x100 * (k * short) - place * long < long + k * long / 0x100 + 1
  {
    ThreeProducts(k, adj, long, short);
    PlaceTimes(total, long, place);
    Compare(total * long, k * short, k * long, place * long, long);
  }

  lemma ThreeProducts(k: int, adj: int, long: int, short: int)
    ensures k * (adj * long) == (adj * k) * long
    ensures k * (short * MODULUS) == (k * short) * MODULUS
    ensures k * ((adj + 0x1_0000) * long) == (adj * k) * long + 0x1_0000 * (k * long)
  {
    Distribute(adj, 0x1_0000, long);
    Distribute(adj * long, 0x1_0000 * long, k);
  }

  lemma PlaceTimes(total: nat, long: nat, place: nat)
    requires 0x100_0000 * place <= total < 0x100_0000 * (place + 1) && long > 0
    ensures 0x100_0000 * (place * long) <= total * long <= 0x100_0000 * (place * long) + 0x100_0000 * long
  {
    LessProduct(long, 0x100_0000 * place, total);
    LessProduct(long, total, 0x100_0000 * (place + 1));
  }

  lemma Compare(t: nat, s: nat, l: nat, p: nat, long: nat)
    requires t <= s * MODULUS <= t + 0x1_0000 * l
    requires 0x100_0000 * p <= t <= 0x100_0000 * p + 0x100_0000 * long
    ensures 0 <= 0x100 * s - p < long + l / 0x100 + 1
  {
  }

  // ----- the pixels of the line -----

  /** One call of SetPixelColorNoClip. */
  datatype Dot = Dot(at: Point, color: Word)

  /** SetPixelColorWeightedNoClip: the weight goes into the alpha. */
  function Weighted(color: Word, weight: Byte): Word {
    ChannelProduct(color.a, weight);
    color.(a := color.a * weight / 0x100)
  }

  /** The line with its upper end first. */
  function Downward(s: Segment): Segment {
    if s.y1 > s.y2 then s.Swapped() else s
  }

  /** Neither along an axis nor diagonal. */
  predicate NeedsSmoothing(s: Segment) {
    0 < Short(s) < Long(s)
  }

  /** The two pixels of step k. */
  function Pair(o: Segment, color: Word, k: nat): seq<Dot>
    requires NeedsSmoothing(o)
  {
    var m, w := Minor(Long(o), Short(o), k), Weight(Long(o), Short(o), k);
    [Dot(Along(o, k, m), Weighted(color, 255 - w)), Dot(Along(o, k, m + 1), Weighted(color, w))]
  }

  /** A pixel of a step has the colour channels of the line and an alpha weighed by
      v, and v measures how near it is: its distance from the line, in 256ths of a
      pixel, is 255 - v to 256 - v, up to the error of the accumulator. */
  lemma PairIsWeighted(o: Segment, color: Word, k: nat, i: nat) returns (j: int, v: Byte)
    requires NeedsSmoothing(o) && Long(o) < 0x8000 && i < 2
    ensures Pair(o, color, k)[i].at == Along(o, k, j)
    ensures Pair(o, color, k)[i].color.(a := 0) == color.(a := 0)
    ensures Pair(o, color, k)[i].color.a == color.a * v / 0x100
    ensures var long, error := Long(o), k * Long(o) / 0x100 + 1;
            var distance := Reach(0x100 * (k * Short(o)), 0x100 * (j * long));
            (255 - v) * long - error <= distance <= (256 - v) * long + error
  {
    hide Minor, Weight, Long, Short, Along;
    var m, w := Minor(Long(o), Short(o), k), Weight(Long(o), Short(o), k);
    j, v := m + i, if i == 0 then 255 - w else w;
    var long, short := Long(o), Short(o);
    WeightsAreAccurate(long, short, k);
    ErrorIsPositive(k, long);
    Distribute(0x100 * m, w, long);
    assert 0x100 * m * long == 0x100 * (m * long);
    Distribute(m, 1, long);
    Distances(0x100 * (k * short), m * long, w, long, k * long / 0x100 + 1);
  }

  lemma ErrorIsPositive(k: nat, long: nat)
    ensures k * long / 0x100 + 1 > 0
  {
    LessProduct(k, 0, long);
  }

  /** The distances of the two pixels from a place that lies above theirs by w
      256ths and an error. */
  lemma Distances(ideal: int, m: int, w: Byte, long: nat, error: int)
    requires 0 <= ideal - (0x100 * m + w * long) < long + error && error > 0
    ensures (255 - (255 - w)) * long - error <= Reach(ideal, 0x100 * m) <= (256 - (255 - w)) * long + error
    ensures (255 - w) * long - error <= Reach(ideal, 0x100 * (m + long)) <= (256 - w) * long + error
  {
    Distribute(255, w, long);
    Distribute(256, w, long);
    Distribute(w, 1, long);
    LessProduct(long, 0, w);
    LessProduct(long, w, 255);
  }

  function Pairs(o: Segment, color: Word, n: nat): seq<Dot>
    requires NeedsSmoothing(o)
  {
    if n == 0 then [] else Pairs(o, color, n - 1) + Pair(o, color, n)
  }

  /** Everything drawn, in order. */
  function WuDots(s: Segment, color: Word, endpoint: bool): seq<Dot>
    requires NeedsSmoothing(s)
  {
    DownwardKeepsSizes(s);
    [Dot(Point(s.x1, s.y1), color)] + Pairs(Downward(s), color, Long(s) - 1)
    + (if endpoint then [Dot(Point(s.x2, s.y2), color)] else [])
  }

  /** Every step between the ends has its two pixels, the first end is drawn in the
      colour itself, and so is the last one if it is wanted; there are no others. */
  lemma EveryStepIsDrawn(s: Segment, color: Word, endpoint: bool, k: nat)
    requires NeedsSmoothing(s) && NeedsSmoothing(Downward(s)) && 0 < k < Long(s)
    ensures var dots, pair := WuDots(s, color, endpoint), Pair(Downward(s), color, k);
            && pair[0] in dots && pair[1] in dots && dots[0] == Dot(Point(s.x1, s.y1), color)
            && (endpoint ==> dots[|dots| - 1] == Dot(Point(s.x2, s.y2), color))
            && |dots| == 1 + 2 * (Long(s) - 1) + (if endpoint then 1 else 0)
  {
    hide Long, Short, NeedsSmoothing, Pair;
    DownwardKeepsSizes(s);
    PairsHave(Downward(s), color, Long(s) - 1, k);
  }

  lemma {:induction false} PairsHave(o: Segment, color: Word, n: nat, k: nat)
    requires NeedsSmoothing(o) && 0 < k <= n
    ensures |Pairs(o, color, n)| == 2 * n && |Pair(o, color, k)| == 2
    ensures Pair(o, color, k)[0] in Pairs(o, color, n) && Pair(o, color, k)[1] in Pairs(o, color, n)
  {
    if k < n {
      PairsHave(o, color, n - 1, k);
    } else if n > 1 {
      PairsHave(o, color, n - 1, n - 1);
    }
  }

  lemma DownwardKeepsSizes(s: Segment)
    ensures Long(Downward(s)) == Long(s) && Short(Downward(s)) == Short(s)
  {
  }

  /** How far along the longer axis a pixel is. */
  function StepOf(o: Segment, p: Point): int {
    if Reach(o.x1, o.x2) < Reach(o.y1, o.y2) then Reach(o.y1, p.y) else Reach(o.x1, p.x)
  }

  lemma AlongIsAtStep(o: Segment, k: nat, j: int)
    ensures StepOf(o, Along(o, k, j)) == k
  {
  }

  predicate InBox(p: Point, s: Segment) {
    Segment(p.x, p.y, p.x, p.y).Within(s)
  }

  /** No pixel is drawn twice. */
  ghost predicate DistinctDots(dots: seq<Dot>) {
    forall i, j :: 0 <= i < j < |dots| ==> dots[i].at != dots[j].at
  }

  lemma DistinctDotsOfBoth(dots: seq<Dot>, more: seq<Dot>)
    requires DistinctDots(dots) && DistinctDots(more)
    requires forall d, e :: d in dots && e in more ==> d.at != e.at
    ensures DistinctDots(dots + more)
  {
    var all := dots + more;
    forall i, j | 0 <= i < j < |all|
      ensures all[i].at != all[j].at
    {
      if i < |dots| <= j {
        assert all[i] in dots && all[j] in more;
      }
    }
  }

  lemma PairIsInside(o: Segment, color: Word, k: nat)
    requires NeedsSmoothing(o) && Long(o) < 0x8000 && k < Long(o)
    ensures DistinctDots(Pair(o, color, k))
    ensures forall d :: d in Pair(o, color, k) ==> StepOf(o, d.at) == k && InBox(d.at, o)
  {
    hide Minor, Weight, Long, Short, Along, StepOf;
    var m := Minor(Long(o), Short(o), k);
    MinorStaysInside(Long(o), Short(o), k);
    AlongWithin(o, k, m);
    AlongWithin(o, k, m + 1);
    AlongIsAtStep(o, k, m);
    AlongIsAtStep(o, k, m + 1);
    AlongDiffersBeside(o, k, m);
  }

  lemma AlongDiffersBeside(o: Segment, k: int, j: int)
    ensures Along(o, k, j) != Along(o, k, j + 1)
  {
  }

  lemma {:induction false} PairsAreInside(o: Segment, color: Word, n: nat)
    requires NeedsSmoothing(o) && Long(o) < 0x8000 && n < Long(o)
    ensures DistinctDots(Pairs(o, color, n))
    ensures forall d :: d in Pairs(o, color, n) ==> 1 <= StepOf(o, d.at) <= n && InBox(d.at, o)
  {
    hide Pair, Long, Short, StepOf;
    if n > 0 {
      PairsAreInside(o, color, n - 1);
      PairIsInside(o, color, n);
      DistinctDotsOfBoth(Pairs(o, color, n - 1), Pair(o, color, n));
    }
  }

  /** Every pixel of the line lies in the bounding box of its ends, and none is
      drawn twice. */
  lemma WuDotsAreInside(s: Segment, color: Word, endpoint: bool)
    requires NeedsSmoothing(s) && Long(s) < 0x8000
    ensures DistinctDots(WuDots(s, color, endpoint))
    ensures forall d :: d in WuDots(s, color, endpoint) ==> InBox(d.at, s)
  {
    hide Pairs, Long, Short;
    DownwardKeepsSizes(s);
    var o := Downward(s);
    EndsAreOutside(s);
    PairsAreInside(o, color, Long(s) - 1);
    var first, pairs := [Dot(Point(s.x1, s.y1), color)], Pairs(o, color, Long(s) - 1);
    DistinctDotsOfBoth(first, pairs);
    if endpoint {
      DistinctDotsOfBoth(first + pairs, [Dot(Point(s.x2, s.y2), color)]);
    }
  }

  lemma EndsAreOutside(s: Segment)
    requires Long(s) > 0
    ensures StepOf(Downward(s), Point(s.x1, s.y1)) in {0, Long(s)}
    ensures StepOf(Downward(s), Point(s.x2, s.y2)) == Long(s) - StepOf(Downward(s), Point(s.x1, s.y1))
  {
  }

  // ----- drawing -----

  /** Every dot has been painted on what was there before, nothing else. */
  ghost predicate Dotted(kind: FormatType, before: Image, now: Image, dots: seq<Dot>)
    requires before.Valid()
  {
    && now.SameShape(before)
    && (forall x, y :: now.Contains(x, y) ==> PixelDotted(kind, before, now, dots, x, y))
    && (forall i :: 0 <= i < |now.data| && !now.IsPixelIndex(i) ==> now.data[i] == before.data[i])
  }

  ghost predicate PixelDotted(kind: FormatType, before: Image, now: Image, dots: seq<Dot>, x: int, y: int)
    requires before.Valid() && now.SameShape(before) && now.Contains(x, y)
  {
    && (forall d :: d in dots && d.at == Point(x, y) ==> now.At(x, y) == PixelPaint(d.color, kind)(before.At(x, y)))
    && ((forall d :: d in dots ==> d.at != Point(x, y)) ==> now.At(x, y) == before.At(x, y))
  }

  lemma OneMoreDotted(kind: FormatType, before: Image, mid: Image, now: Image, dots: seq<Dot>, d: Dot)
    requires before.Valid() && mid.Valid() && Dotted(kind, before, mid, dots)
    requires Painted(PixelPaint(d.color, kind), mid, now, iset{d.at})
    requires forall e :: e in dots ==> e.at != d.at
    ensures Dotted(kind, before, now, dots + [d])
  {
    hide PixelPaint;
    forall x, y | now.Contains(x, y)
      ensures PixelDotted(kind, before, now, dots + [d], x, y)
    {
      assert PixelDotted(kind, before, mid, dots, x, y);
      assert PixelPainted(PixelPaint(d.color, kind), mid, now, iset{d.at}, x, y);
      assert d in dots + [d];
    }
  }

  /** The dots of the first k steps. */
  ghost function Started(s: Segment, color: Word, k: nat): seq<Dot>
    requires NeedsSmoothing(s)
  {
    DownwardKeepsSizes(s);
    [Dot(Point(s.x1, s.y1), color)] + Pairs(Downward(s), color, k)
  }

  lemma StartedIsBehind(s: Segment, color: Word, k: nat, e: Dot)
    requires NeedsSmoothing(s) && Long(s) < 0x8000 && k + 1 < Long(s) && e in Started(s, color, k)
    ensures StepOf(Downward(s), e.at) != k + 1
  {
    hide Pair, Long, Short, StepOf, NeedsSmoothing;
    DownwardKeepsSizes(s);
    EndsAreOutside(s);
    FirstStep(s);
    PairsAreInside(Downward(s), color, k);
  }

  lemma NextPairIsNew(s: Segment, color: Word, k: nat)
    requires NeedsSmoothing(s) && Long(s) < 0x8000 && NeedsSmoothing(Downward(s)) && k + 1 < Long(s)
    ensures var pair := Pair(Downward(s), color, k + 1);
            && Started(s, color, k + 1) == (Started(s, color, k) + [pair[0]]) + [pair[1]]
            && (forall e :: e in Started(s, color, k) ==> e.at != pair[0].at)
            && (forall e :: e in Started(s, color, k) + [pair[0]] ==> e.at != pair[1].at)
            && InBox(pair[0].at, s) && InBox(pair[1].at, s)
  {
    hide Long, Short, StepOf, Minor, Weight, Along, NeedsSmoothing;
    DownwardKeepsSizes(s);
    var o := Downward(s);
    var pair := Pair(o, color, k + 1);
    PairIsInside(o, color, k + 1);
    assert pair[0] in pair && pair[1] in pair;
    forall e | e in Started(s, color, k)
      ensures e.at != pair[0].at && e.at != pair[1].at
    {
      StartedIsBehind(s, color, k, e);
    }
    assert Pairs(o, color, k + 1) == Pairs(o, color, k) + [pair[0]] + [pair[1]];
  }

  /** The two weighted pixels of step k + 1. */
  method DrawPair(surface: Surface, s: Segment, color: Word, x: int, y: int, x': int, y': int, wgt: Byte,
      ghost k: nat, ghost before: Image)
    requires surface.Valid() && surface.Contains(s.x1, s.y1) && surface.Contains(s.x2, s.y2)
    requires NeedsSmoothing(s) && Long(s) < 0x8000 && NeedsSmoothing(Downward(s)) && k + 1 < Long(s)
    requires var m := Minor(Long(s), Short(s), k + 1);
             Point(x, y) == Along(Downward(s), k + 1, m) && Point(x', y') == Along(Downward(s), k + 1, m + 1)
    requires wgt == Weight(Long(s), Short(s), k + 1)
    requires before.Valid() && Dotted(surface.format.kind, before, surface.Content(), Started(s, color, k))
    modifies surface.data
    ensures surface.Valid()
    ensures Dotted(surface.format.kind, before, surface.Content(), Started(s, color, k + 1))
  {
    hide Painted, Dotted, Started, Along, Long, Short, Minor, Weight, PixelPaint;
    ghost var kind, pair := surface.format.kind, Pair(Downward(s), color, k + 1);
    DownwardKeepsSizes(s);
    NextPairIsNew(s, color, k);
    ghost var mid := surface.Content();
    SetPixelNoClip(surface, Point(x, y), PixelPaint(Weighted(color, 255 - wgt), surface.format.kind));
    OneMoreDotted(kind, before, mid, surface.Content(), Started(s, color, k), pair[0]);
    mid := surface.Content();
    SetPixelNoClip(surface, Point(x', y'), PixelPaint(Weighted(color, wgt), surface.format.kind));
    OneMoreDotted(kind, before, mid, surface.Content(), Started(s, color, k) + [pair[0]], pair[1]);
  }

  lemma FirstStep(s: Segment)
    requires NeedsSmoothing(s)
    ensures NeedsSmoothing(Downward(s))
    ensures Minor(Long(s), Short(s), 0) == 0 && Fraction(Long(s), Short(s), 0) == 0
  {
  }

  /** The loop for lines that are higher than wide; every line goes down. */
  method DrawSteeply(surface: Surface, s: Segment, color: Word, ghost before: Image)
    requires surface.Valid() && surface.Contains(s.x1, s.y1) && surface.Contains(s.x2, s.y2)
    requires NeedsSmoothing(s) && Long(s) < 0x8000 && Reach(s.x1, s.x2) < Reach(s.y1, s.y2)
    requires before.Valid() && Dotted(surface.format.kind, before, surface.Content(), Started(s, color, 0))
    modifies surface.data
    ensures surface.Valid()
    ensures Dotted(surface.format.kind, before, surface.Content(), Started(s, color, Long(s) - 1))
  {
    hide Dotted, Started, Minor, Weight, Fraction;
    var xx0, yy0, xx1, yy1 := s.x1, s.y1, s.x2, s.y2;
    if yy0 > yy1 {
      yy0, yy1 := yy1, yy0;
      xx0, xx1 := xx1, xx0;
    }
    var dx, dy := xx1 - xx0, yy1 - yy0;
    var xdir := 1;
    if dx < 0 {
      xdir := -1;
      dx := -dx;
    }
    ghost var long, short, k := Long(s), Short(s), 0;
    AdvanceBounds(long, short);
    FirstStep(s);
    var erracc, erradj := 0, dx * 0x1_0000 / dy * 0x1_0000;
    var x0pxdir := xx0 + xdir;
    dy := dy - 1;
    while dy != 0
      invariant surface.Valid()
      invariant 0 <= k < long && dy == long - 1 - k && x0pxdir == xx0 + xdir
      invariant erradj == Advance(long, short)
      invariant erracc == Fraction(long, short, k) && Point(xx0, yy0) == Along(Downward(s), k, Minor(long, short, k))
      invariant Dotted(surface.format.kind, before, surface.Content(), Started(s, color, k))
      decreases dy
    {
      Accumulate(long, short, k);
      var erracctmp := erracc;
      erracc := (erracc + erradj) % MODULUS;
      if erracc <= erracctmp {
        xx0 := x0pxdir;
        x0pxdir := x0pxdir + xdir;
      }
      yy0 := yy0 + 1;
      WeightOf(long, short, k + 1);
      var wgt := erracc / 0x100_0000 % 0x100;
      DrawPair(surface, s, color, xx0, yy0, x0pxdir, yy0, wgt, k, before);
      k := k + 1;
      dy := dy - 1;
    }
  }

  lemma WeightOf(long: nat, short: nat, k: nat)
    requires long > 0
    ensures Fraction(long, short, k) / 0x100_0000 % 0x100 == Weight(long, short, k)
  {
  }

  /** The loop for lines that are wider than high. */
  method DrawWidely(surface: Surface, s: Segment, color: Word, ghost before: Image)
    requires surface.Valid() && surface.Contains(s.x1, s.y1) && surface.Contains(s.x2, s.y2)
    requires NeedsSmoothing(s) && Long(s) < 0x8000 && Reach(s.y1, s.y2) < Reach(s.x1, s.x2)
    requires before.Valid() && Dotted(surface.format.kind, before, surface.Content(), Started(s, color, 0))
    modifies surface.data
    ensures surface.Valid()
    ensures Dotted(surface.format.kind, before, surface.Content(), Started(s, color, Long(s) - 1))
  {
    hide Dotted, Started, Minor, Weight, Fraction;
    var xx0, yy0, xx1, yy1 := s.x1, s.y1, s.x2, s.y2;
    if yy0 > yy1 {
      yy0, yy1 := yy1, yy0;
      xx0, xx1 := xx1, xx0;
    }
    var dx, dy := xx1 - xx0, yy1 - yy0;
    var xdir := 1;
    if dx < 0 {
      xdir := -1;
      dx := -dx;
    }
    ghost var long, short, k := Long(s), Short(s), 0;
    AdvanceBounds(long, short);
    FirstStep(s);
    var erracc, erradj := 0, dy * 0x1_0000 / dx * 0x1_0000;
    var y0p1 := yy0 + 1;
    dx := dx - 1;
    while dx != 0
      invariant surface.Valid()
      invariant 0 <= k < long && dx == long - 1 - k && y0p1 == yy0 + 1
      invariant erradj == Advance(long, short)
      invariant erracc == Fraction(long, short, k) && Point(xx0, yy0) == Along(Downward(s), k, Minor(long, short, k))
      invariant Dotted(surface.format.kind, before, surface.Content(), Started(s, color, k))
      decreases dx
    {
      Accumulate(long, short, k);
      var erracctmp := erracc;
      erracc := (erracc + erradj) % MODULUS;
      if erracc <= erracctmp {
        yy0 := y0p1;
        y0p1 := y0p1 + 1;
      }
      xx0 := xx0 + xdir;
      WeightOf(long, short, k + 1);
      var wgt := erracc / 0x100_0000 % 0x100;
      DrawPair(surface, s, color, xx0, yy0, xx0, y0p1, wgt, k, before);
      k := k + 1;
      dx := dx - 1;
    }
  }

  /** The general case of AALineColor, between two visible ends. */
  method DrawSmoothed(surface: Surface, s: Segment, color: Word, endpoint: bool)
    requires surface.Valid() && surface.Contains(s.x1, s.y1) && surface.Contains(s.x2, s.y2)
    requires NeedsSmoothing(s) && Long(s) < 0x8000
    modifies surface.data
    ensures surface.Valid()
    ensures Dotted(surface.format.kind, old(surface.Content()), surface.Content(), WuDots(s, color, endpoint))
  {
    hide Painted, PixelPaint;
    ghost var before, kind := surface.Content(), surface.format.kind;
    ghost var first, last := Dot(Point(s.x1, s.y1), color), Dot(Point(s.x2, s.y2), color);
    SetPixelNoClip(surface, Point(s.x1, s.y1), PixelPaint(color, surface.format.kind));
    FirstDot(kind, before, surface.Content(), first);
    assert Started(s, color, 0) == [first];
    if Reach(s.x1, s.x2) < Reach(s.y1, s.y2) {
      DrawSteeply(surface, s, color, before);
    } else {
      DrawWidely(surface, s, color, before);
    }
    ghost var started := Started(s, color, Long(s) - 1);
    if endpoint {
      ghost var mid := surface.Content();
      SetPixelNoClip(surface, Point(s.x2, s.y2), PixelPaint(color, surface.format.kind));
      WuDotsAreInside(s, color, true);
      LastIsNew(started, last);
      OneMoreDotted(kind, before, mid, surface.Content(), started, last);
    } else {
      assert WuDots(s, color, endpoint) == started;
    }
  }

  lemma FirstDot(kind: FormatType, before: Image, now: Image, d: Dot)
    requires before.Valid() && Painted(PixelPaint(d.color, kind), before, now, iset{d.at})
    ensures Dotted(kind, before, now, [d])
  {
    hide PixelPaint;
    assert Dotted(kind, before, before, []);
    OneMoreDotted(kind, before, before, now, [], d);
    assert [] + [d] == [d];
  }

  lemma LastIsNew(dots: seq<Dot>, last: Dot)
    requires DistinctDots(dots + [last])
    ensures forall e :: e in dots ==> e.at != last.at
  {
    forall e | e in dots
      ensures e.at != last.at
    {
      var i :| 0 <= i < |dots| && dots[i] == e;
      assert (dots + [last])[i] == e && (dots + [last])[|dots|] == last;
    }
  }

  // ----- AALineColor -----

  /** Lines that need no smoothing go to the other line functions, with their
      ends in the order they were given. */
  ghost predicate PlainLine(s: Segment, color: Word, kind: FormatType, clip: Rect, before: Image, now: Image)
    requires before.Valid() && !NeedsSmoothing(s)
  {
    if s.x1 == s.x2 then Painted(FillPaint(color), before, now, Box(DrawnColumn(s.x1, s.y1, s.y2, color)) * Box(clip))
    else if s.y1 == s.y2
    then Painted(FillPaint(color), before, now, Line(DrawnSpan(Span(s.x1, s.x2, s.y1), color)) * Box(clip))
    else Painted(LinePaint(s, color, kind), before, now, LinePixels(s, color, kind))
  }

  /** The smoothed line for all surfaces whose coordinates fit in 15 bits. */
  method AALineColor(surface: Surface, line: Segment, slides: seq<int>, color: Word, endpoint: bool)
    returns (clipped: Clipped)
    requires surface.Valid() && surface.ClipFits() && surface.width <= 0x8000 && surface.height <= 0x8000
    modifies surface.data
    ensures surface.Valid()
    ensures clipped == if surface.clip.w == 0 || surface.clip.h == 0 then Reject
                       else ClipRun(line, surface.clip.Value(), slides)
    ensures clipped.Accept? ==>
      if NeedsSmoothing(clipped.line)
      then Dotted(surface.format.kind, old(surface.Content()), surface.Content(), WuDots(clipped.line, color, endpoint))
      else PlainLine(clipped.line, color, surface.format.kind, surface.clip.Value(),
                     old(surface.Content()), surface.Content())
    ensures !clipped.Accept? ==> surface.Content() == old(surface.Content())
  {
    hide Painted, Dotted, WuDots, LinePixels, LinePaint, FillPaint;
    if surface.clip.w == 0 || surface.clip.h == 0 {
      return Reject;
    }
    var clip := surface.clip.Value();
    clipped := ClipLine(clip, line, slides);
    if !clipped.Accept? {
      return;
    }
    AcceptedEndsAreVisible(line, clip, slides);
    var s := clipped.line;
    var dx, dy := Reach(s.x1, s.x2), Reach(s.y1, s.y2);
    if dx == 0 {
      VLineColor(surface, s.x1, s.y1, s.y2, color);
    } else if dy == 0 {
      HLineColor(surface, Span(s.x1, s.x2, s.y1), color);
    } else if dx == dy {
      InsideIsInClip(s.x1, s.y1, clip);
      InsideIsInClip(s.x2, s.y2, clip);
      var again := LineColor(surface, s, [], color);
    } else {
      DrawSmoothed(surface, s, color, endpoint);
    }
  }

  /** A straight line given from right to left or from bottom to top is drawn
      when the colour is opaque, and not at all when it is translucent. */
  lemma BackwardLineVanishes(s: Segment, color: Word, clip: Rect)
    requires (s.x1 == s.x2 || s.y1 == s.y2) && clip.Has(s.x1, s.y1) && clip.Has(s.x2, s.y2)
    ensures var drawn := if s.x1 == s.x2 then Box(DrawnColumn(s.x1, s.y1, s.y2, color)) * Box(clip)
                         else Line(DrawnSpan(Span(s.x1, s.x2, s.y1), color)) * Box(clip);
            && (drawn == Box(Spanned(s)) <==> color.a == 255 || (s.x1 <= s.x2 && s.y1 <= s.y2))
            && (drawn == Box(Spanned(s)) || drawn == iset{})
  {
    assert Point(s.x1, s.y1) in Box(Spanned(s));
    if color.a == 255 || (s.x1 <= s.x2 && s.y1 <= s.y2) {
      StraightIsClip(s, clip);
    } else if s.x1 == s.x2 {
      assert Box(DrawnColumn(s.x1, s.y1, s.y2, color)) * Box(clip) == iset{};
    } else {
      assert Line(DrawnSpan(Span(s.x1, s.x2, s.y1), color)) * Box(clip) == iset{};
    }
  }
}
