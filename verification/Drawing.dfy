/** The primitives every shape is drawn with: single pixels, horizontal lines
    and rectangles of one colour. Shapes hand over which points or spans they
    draw, in order; here the points and spans reach a surface. */
module Drawing {
  import opened Arithmetic
  import opened Words
  import opened Rects
  import opened Surfaces

  datatype Point = Point(x: int, y: int)

  /** One call of HLineColor: from x1 to x2, both included, in row y. */
  datatype Span = Span(x1: int, x2: int, y: int) {
    predicate Has(x: int, row: int) {
      row == y && x1 <= x <= x2
    }
  }

  /** What drawing a colour does to a pixel. */
  type Paint = Word -> Word

  ghost predicate Distinct<T>(s: seq<T>) {
    forall i, j :: 0 <= i < j < |s| ==> s[i] != s[j]
  }

  // ----- colours -----

  /** The pixel code of FillRectColor for a colour that is not opaque. */
  function FillPixel(color: Word, d: Word): Word {
    if d.a == 0 then color
    else Word(d.a, Mix(color.r, d.r, color.a), Mix(color.g, d.g, color.a), Mix(color.b, d.b, color.a))
  }

  function Mix(s: Byte, d: Byte, alpha: Byte): Byte {
    MixBelow(s, d, alpha);
    (Times(s, alpha) + Times(d, 255 - alpha)) / 0x100
  }

  lemma MixBelow(s: Byte, d: Byte, alpha: Byte)
    ensures 0 <= Times(s, alpha) + Times(d, 255 - alpha) < 0x1_0000
  {
    ChannelTimes(s, alpha);
    ChannelTimes(d, 255 - alpha);
  }

  lemma {:induction false} ChannelTimes(x: Byte, k: nat)
    ensures 0 <= Times(x, k) <= 255 * k
  {
    if k > 0 {
      ChannelTimes(x, k - 1);
    }
  }

  /** A filled channel is (s * alpha + d * (255 - alpha)) / 256: it is never above
      both colours, and below both by one at most. */
  lemma MixIsBetween(s: Byte, d: Byte, alpha: Byte)
    ensures Mix(s, d, alpha) == (s * alpha + d * (255 - alpha)) / 0x100
    ensures Min(s, d) - 1 <= Mix(s, d, alpha) <= Max(s, d)
  {
    TimesIs(s, alpha);
    TimesIs(d, 255 - alpha);
    WeightedMean(s, d, alpha);
    Rounding(s * alpha + d * (255 - alpha), Min(s, d), Max(s, d));
  }

  lemma WeightedMean(s: Byte, d: Byte, alpha: Byte)
    ensures 255 * Min(s, d) <= s * alpha + d * (255 - alpha) <= 255 * Max(s, d)
  {
    var rest := 255 - alpha;
    assert d * alpha + d * rest == 255 * d;
    if s <= d {
      LessProduct(d - s, alpha, 255);
      Distribute(d, s, alpha);
    } else {
      LessProduct(s - d, alpha, 255);
      Distribute(s, d, alpha);
    }
  }

  lemma Rounding(sum: int, lo: Byte, hi: Byte)
    requires 255 * lo <= sum <= 255 * hi
    ensures lo - 1 <= sum / 0x100 <= hi
  {
  }

  function Solid(color: Word): Paint {
    d => color
  }

  function FillPaint(color: Word): Paint {
    if color.a == 255 then Solid(color) else d => FillPixel(color, d)
  }

  /** A paint applied several times. */
  function Repeat(f: Paint, n: nat, d: Word): Word {
    if n == 0 then d else f(Repeat(f, n - 1, d))
  }

  lemma {:induction false} RepeatSolid(color: Word, n: nat, d: Word)
    ensures Repeat(Solid(color), n, d) == if n == 0 then d else color
  {
    if n > 0 {
      RepeatSolid(color, n - 1, d);
    }
  }

  // ----- regions of a surface painted once -----

  type Area = iset<Point>

  ghost function Box(r: Rect): Area {
    iset p: Point | r.Has(p.x, p.y)
  }

  ghost function Line(s: Span): Area {
    iset p: Point | s.Has(p.x, p.y)
  }

  ghost function Dots(points: seq<Point>): Area {
    iset p: Point | p in points
  }

  /** Every pixel in the area was painted once, and nothing else changed. */
  ghost predicate Painted(f: Paint, before: Image, now: Image, area: Area)
    requires before.Valid()
  {
    && now.SameShape(before)
    && (forall x, y :: now.Contains(x, y) ==> PixelPainted(f, before, now, area, x, y))
    && (forall i :: 0 <= i < |now.data| && !now.IsPixelIndex(i) ==> now.data[i] == before.data[i])
  }

  ghost predicate PixelPainted(f: Paint, before: Image, now: Image, area: Area, x: int, y: int)
    requires before.Valid() && now.SameShape(before) && now.Contains(x, y)
  {
    now.At(x, y) == if Point(x, y) in area then f(before.At(x, y)) else before.At(x, y)
  }

  /** Painting two areas without a common pixel paints their union. */
  lemma PaintedBoth(f: Paint, before: Image, mid: Image, now: Image, p: Area, q: Area)
    requires before.Valid() && mid.Valid() && Painted(f, before, mid, p) && Painted(f, mid, now, q)
    requires forall a :: !(a in p && a in q)
    ensures Painted(f, before, now, p + q)
  {
    forall x, y | now.Contains(x, y)
      ensures PixelPainted(f, before, now, p + q, x, y)
    {
      assert PixelPainted(f, before, mid, p, x, y);
      assert PixelPainted(f, mid, now, q, x, y);
    }
  }

  lemma PaintedNothing(f: Paint, image: Image)
    requires image.Valid()
    ensures Painted(f, image, image, iset{})
  {
  }

  // ----- single pixels -----

  /** SetPixelSolidColorNoClip and SetPixelColorNoClip: the pixel has to be one
      of the surface. */
  method SetPixelNoClip(surface: Surface, p: Point, f: Paint)
    requires surface.Valid() && surface.Contains(p.x, p.y)
    modifies surface.data
    ensures surface.Valid()
    ensures Painted(f, old(surface.Content()), surface.Content(), iset{p})
  {
    surface.Content().IndexInData(p.x, p.y);
    var i := p.y * (surface.stride / 4) + p.x;
    surface.data[i] := f(surface.data[i]);
    OnePixel(f, old(surface.Content()), surface.Content(), p);
  }

  /** SetPixelSolidColor and SetPixelColor: only a pixel of the surface is drawn;
      the clip rectangle is not asked. */
  method SetPixel(surface: Surface, p: Point, f: Paint)
    requires surface.Valid()
    modifies surface.data
    ensures surface.Valid()
    ensures Painted(f, old(surface.Content()), surface.Content(), iset{p})
  {
    if 0 <= p.x < surface.width && 0 <= p.y < surface.height {
      SetPixelNoClip(surface, p, f);
    }
  }

  lemma OnePixel(f: Paint, before: Image, now: Image, p: Point)
    requires before.Valid() && now.SameShape(before) && before.Contains(p.x, p.y)
    requires 0 <= before.Index(p.x, p.y) < |before.data|
    requires now.data == before.data[before.Index(p.x, p.y) := f(before.data[before.Index(p.x, p.y)])]
    ensures Painted(f, before, now, iset{p})
  {
    forall x, y | now.Contains(x, y)
      ensures PixelPainted(f, before, now, iset{p}, x, y)
    {
      before.IndexInData(x, y);
      if before.Index(x, y) == before.Index(p.x, p.y) {
        SamePosition(before.pitch, y, x, p.y, p.x);
      }
    }
    RowColumn(before.pitch, p.y, p.x);
  }

  /** Points that are all different are each painted once. */
  method DrawPoints(surface: Surface, points: seq<Point>, f: Paint)
    requires surface.Valid() && Distinct(points)
    modifies surface.data
    ensures surface.Valid()
    ensures Painted(f, old(surface.Content()), surface.Content(), Dots(points))
  {
    hide Painted;
    ghost var before := surface.Content();
    PaintedNothing(f, before);
    assert Dots(points[..0]) == iset{};
    for i := 0 to |points|
      invariant surface.Valid()
      invariant Painted(f, before, surface.Content(), Dots(points[..i]))
    {
      ghost var mid := surface.Content();
      SetPixel(surface, points[i], f);
      assert points[..i + 1] == points[..i] + [points[i]];
      PaintedBoth(f, before, mid, surface.Content(), Dots(points[..i]), iset{points[i]});
      assert Dots(points[..i]) + iset{points[i]} == Dots(points[..i + 1]);
    }
    assert points[..|points|] == points;
  }

  // ----- rectangles and lines -----

  /** One row of a fill: w pixels from index q on. */
  method FillRow(data: array<Word>, q: nat, w: nat, f: Paint)
    requires q + w <= data.Length
    modifies data
    ensures RowFilled(f, old(data[..]), data[..], q, w)
  {
    for c := 0 to w
      invariant RowFilled(f, old(data[..]), data[..], q, c)
    {
      data[q + c] := f(data[q + c]);
    }
  }

  ghost predicate RowFilled(f: Paint, before: seq<Word>, now: seq<Word>, q: nat, w: nat) {
    && |now| == |before|
    && forall i {:trigger now[i]} :: 0 <= i < |now| ==>
         now[i] == if q <= i < q + w then f(before[i]) else before[i]
  }

  lemma FilledRow(f: Paint, before: Image, now: Image, x: nat, y: nat, w: nat)
    requires before.Valid() && now.SameShape(before) && y < before.height && x + w <= before.width
    requires 0 <= before.Index(x, y) && RowFilled(f, before.data, now.data, before.Index(x, y), w)
    ensures Painted(f, before, now, Box(Rect(x, y, w, 1)))
  {
    forall px, py | now.Contains(px, py)
      ensures PixelPainted(f, before, now, Box(Rect(x, y, w, 1)), px, py)
    {
      before.IndexInData(px, py);
      var i, q := before.Index(px, py), before.Index(x, y);
      if q <= i < q + w {
        SamePosition(before.pitch, py, px, y, x + (i - q));
      }
    }
    forall i | 0 <= i < |now.data| && !now.IsPixelIndex(i)
      ensures now.data[i] == before.data[i]
    {
      var q := before.Index(x, y);
      if q <= i < q + w {
        RowColumn(before.pitch, y, x + (i - q));
      }
    }
  }

  /** FillRectColor on a 32-bit surface: the rectangle, or everything, as far as
      the clip rectangle lets it. */
  method FillRectColor(surface: Surface, rect: Option<Rect>, color: Word)
    requires surface.Valid() && surface.ClipFits()
    modifies surface.data
    ensures surface.Valid()
    ensures var clip := Box(surface.clip.Value());
            Painted(FillPaint(color), old(surface.Content()), surface.Content(),
                    if rect.Some? then Box(rect.value) * clip else clip)
  {
    ghost var before := surface.Content();
    ghost var clip := surface.clip.Value();
    var r := surface.clip.Value();
    if rect.Some? {
      var a := new RectVar(rect.value);
      var temp := new RectVar(r);
      var some := IntersectRect(a, surface.clip, temp);
      r := temp.Value();
      MeetBoxes(rect.value, clip, r);
    }
    if r.w > 0 && r.h > 0 {
      FillRows(surface, r, FillPaint(color));
    } else {
      PaintedNothing(FillPaint(color), before);
      assert Box(r) == iset{};
    }
  }

  lemma MeetBoxes(a: Rect, b: Rect, r: Rect)
    requires var m := Meet(a, b); r == m.(w := Max(m.w, 0), h := Max(m.h, 0))
    ensures Box(r) == Box(a) * Box(b)
  {
  }

  method FillRows(surface: Surface, r: Rect, f: Paint)
    requires surface.Valid() && r.Inside(surface.Bounds()) && r.x >= 0 && r.y >= 0 && r.w > 0 && r.h > 0
    modifies surface.data
    ensures surface.Valid()
    ensures Painted(f, old(surface.Content()), surface.Content(), Box(r))
  {
    hide Painted, RowFilled;
    ghost var before := surface.Content();
    PaintedNothing(f, before);
    assert Box(Rect(r.x, r.y, r.w, 0)) == iset{};
    for row := 0 to r.h
      invariant surface.Valid()
      invariant Painted(f, before, surface.Content(), Box(Rect(r.x, r.y, r.w, row)))
    {
      var pitch := surface.stride / 4;
      BlockFits(pitch, pitch, r.x, r.y + row, r.w, 1, surface.height, surface.data.Length);
      ghost var mid := surface.Content();
      FillRow(surface.data, (r.y + row) * pitch + r.x, r.w, f);
      FilledRow(f, mid, surface.Content(), r.x, r.y + row, r.w);
      ghost var done, next := Rect(r.x, r.y, r.w, row), Rect(r.x, r.y + row, r.w, 1);
      PaintedBoth(f, before, mid, surface.Content(), Box(done), Box(next));
      assert Box(done) + Box(next) == Box(Rect(r.x, r.y, r.w, row + 1));
    }
  }

  /** HLineSolidColor: the end points may come in either order. */
  method HLineSolidColor(surface: Surface, x1: int, x2: int, y: int, color: Word)
    requires surface.Valid() && surface.ClipFits()
    modifies surface.data
    ensures surface.Valid()
    ensures Painted(Solid(color), old(surface.Content()), surface.Content(),
                    Line(Span(Min(x1, x2), Max(x1, x2), y)) * Box(surface.clip.Value()))
  {
    ghost var before := surface.Content();
    var clip := surface.clip.Value();
    var left, right := x1, x2;
    if left > right {
      left, right := right, left;
    }
    ghost var wanted := Line(Span(left, right, y)) * Box(clip);
    if clip.w == 0 || clip.h == 0 || right < clip.x || left > clip.x + clip.w - 1
       || y < clip.y || y > clip.y + clip.h - 1 {
      PaintedNothing(Solid(color), before);
      assert wanted == iset{};
      return;
    }
    if left < clip.x {
      left := clip.x;
    }
    if right > clip.x + clip.w - 1 {
      right := clip.x + clip.w - 1;
    }
    FillRows(surface, Rect(left, y, right - left + 1, 1), Solid(color));
    assert Box(Rect(left, y, right - left + 1, 1)) == wanted;
  }

  /** HLineColor. A span with its ends the wrong way round is drawn only when
      the colour is opaque. */
  method HLineColor(surface: Surface, s: Span, color: Word)
    requires surface.Valid() && surface.ClipFits()
    modifies surface.data
    ensures surface.Valid()
    ensures Painted(FillPaint(color), old(surface.Content()), surface.Content(),
                    Line(DrawnSpan(s, color)) * Box(surface.clip.Value()))
  {
    hide Painted;
    if color.a == 255 {
      HLineSolidColor(surface, s.x1, s.x2, s.y, color);
    } else {
      var rect := Rect(s.x1, s.y, s.x2 - s.x1 + 1, 1);
      FillRectColor(surface, Some(rect), color);
      assert Box(rect) == Line(s);
    }
  }

  /** The span HLineColor draws for a given one. */
  function DrawnSpan(s: Span, color: Word): Span {
    if color.a == 255 then Span(Min(s.x1, s.x2), Max(s.x1, s.x2), s.y) else s
  }

  /** The pixels of several spans. */
  ghost function Lines(spans: seq<Span>): Area {
    iset p: Point | exists i :: 0 <= i < |spans| && spans[i].Has(p.x, p.y)
  }

  /** Spans without a common pixel: each of their pixels is painted once. */
  method DrawSpans(surface: Surface, spans: seq<Span>, color: Word)
    requires surface.Valid() && surface.ClipFits()
    requires forall s :: s in spans ==> s.x1 <= s.x2
    requires forall i, j, x, y :: 0 <= i < j < |spans| && spans[i].Has(x, y) ==> !spans[j].Has(x, y)
    modifies surface.data
    ensures surface.Valid()
    ensures Painted(FillPaint(color), old(surface.Content()), surface.Content(),
                    Lines(spans) * Box(surface.clip.Value()))
  {
    hide Painted;
    ghost var before, clip, f := surface.Content(), Box(surface.clip.Value()), FillPaint(color);
    PaintedNothing(f, before);
    assert Lines(spans[..0]) * clip == iset{};
    for i := 0 to |spans|
      invariant surface.Valid() && surface.ClipFits() && Box(surface.clip.Value()) == clip
      invariant Painted(f, before, surface.Content(), Lines(spans[..i]) * clip)
    {
      ghost var mid := surface.Content();
      HLineColor(surface, spans[i], color);
      PaintedBoth(f, before, mid, surface.Content(), Lines(spans[..i]) * clip, Line(spans[i]) * clip);
      OneMoreLine(spans, i);
      assert Lines(spans[..i]) * clip + Line(spans[i]) * clip == Lines(spans[..i + 1]) * clip;
    }
    assert spans[..|spans|] == spans;
  }

  lemma OneMoreLine(spans: seq<Span>, i: nat)
    requires i < |spans|
    ensures Lines(spans[..i + 1]) == Lines(spans[..i]) + Line(spans[i])
  {
    forall p: Point
      ensures p in Lines(spans[..i + 1]) <==> p in Lines(spans[..i]) || p in Line(spans[i])
    {
      if p in Lines(spans[..i]) {
        var k :| 0 <= k < i && spans[..i][k].Has(p.x, p.y);
        assert spans[..i + 1][k].Has(p.x, p.y);
      }
      if p in Line(spans[i]) {
        assert spans[..i + 1][i].Has(p.x, p.y);
      }
      if p in Lines(spans[..i + 1]) {
        var k :| 0 <= k < i + 1 && spans[..i + 1][k].Has(p.x, p.y);
        assert k < i ==> spans[..i][k].Has(p.x, p.y);
      }
    }
  }
}
