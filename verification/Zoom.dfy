/** Resampling a 32-bit surface to the size of another, by the nearest pixel or
    by interpolation between four. */
module Zoom {
  import opened Arithmetic
  import opened Words
  import opened Rects
  import opened Surfaces

  const ONE := 0x1_0000

  // ----- positions from increments -----

  /** The source position of a destination position, rounded down; step is the
      distance in 1/65536. */
  function Source(n: nat, step: nat): nat {
    LessProduct(n, 0, step);
    n * step / ONE
  }

  /** The rest of it, below one. */
  function Fraction(n: nat, step: nat): (f: nat)
    ensures f < ONE
  {
    LessProduct(n, 0, step);
    n * step % ONE
  }

  /** The entry of the increment table in front of which n positions lie. */
  function Increment(n: nat, step: nat): nat {
    if n == 0 then 0 else Fraction(n - 1, step) + step
  }

  /** The integer parts of the increments add up to the position, without
      error, and their fractions are the fraction of the position. */
  lemma IncrementsAddUp(n: nat, step: nat)
    ensures Source(n, step) + Increment(n + 1, step) / ONE == Source(n + 1, step)
    ensures Increment(n, step) % ONE == Fraction(n, step)
    ensures Source(0, step) == 0
  {
    Distribute(n, 1, step);
    SplitSum(n * step, step);
    if n > 0 {
      Distribute(n - 1, 1, step);
      SplitSum((n - 1) * step, step);
    }
  }

  lemma SplitSum(total: nat, step: nat)
    ensures (total + step) / ONE == total / ONE + (total % ONE + step) / ONE
    ensures (total + step) % ONE == (total % ONE + step) % ONE
  {
  }

  ghost predicate IsTable(table: array<int>, size: nat, step: nat)
    reads table
  {
    table.Length == size + 1 && forall n :: 0 <= n <= size ==> table[n] == Increment(n, step)
  }

  /** The loop that fills the table. */
  method Increments(size: nat, step: nat) returns (table: array<int>)
    ensures fresh(table) && IsTable(table, size, step)
  {
    table := new int[size + 1];
    var cs := 0;
    for n := 0 to size + 1
      invariant cs == Increment(n, step)
      invariant forall k :: 0 <= k < n ==> table[k] == Increment(k, step)
    {
      table[n] := cs;
      IncrementsAddUp(n, step);
      cs := cs % ONE;
      cs := cs + step;
    }
  }

  /** Steps that fit: the destination is not longer than the source stretched. */
  predicate Fits(step: nat, size: nat, sourceSize: nat) {
    size * step <= ONE * sourceSize
  }

  /** The step the source computes as a floating-point quotient and truncates. */
  function StepFor(sourceSize: nat, size: nat): nat {
    if size == 0 then 0
    else
      QuotientOrder(0, ONE * sourceSize, size);
      ONE * sourceSize / size
  }

  /** Truncation gives the exact quotient, rounded down, for all sizes that the
      conversion to float leaves exact: a quotient r that is rounded once to 53
      bits does not reach the next integer. Rounding does not take it below the
      integer either, because that has less than 53 bits. */
  lemma QuotientIsExact(sourceSize: nat, size: nat, r: real)
    requires sourceSize < 0x100_0000 && size > 0
    requires r >= (ONE * sourceSize / size) as real
    requires (r * size as real - (ONE * sourceSize) as real) * 9007199254740992.0 <= (ONE * sourceSize) as real
    ensures r.Floor == StepFor(sourceSize, size)
  {
    var n, q := ONE * sourceSize, ONE * sourceSize / size;
    if r >= (q + 1) as real {
      DivisionBelow(n, size);
      RealProduct(r, q + 1, size);
    }
  }

  lemma DivisionBelow(n: nat, d: nat)
    requires d > 0
    ensures n + 1 <= (n / d + 1) * d
  {
    Distribute(n / d, 1, d);
  }

  lemma RealProduct(r: real, k: int, d: nat)
    requires r >= k as real
    ensures r * d as real >= (k * d) as real
  {
    assert (r - k as real) * d as real >= 0.0;
    assert (k * d) as real == k as real * d as real;
  }

  /** A step fits exactly if it is not above that quotient. */
  lemma StepFits(step: nat, size: nat, sourceSize: nat)
    requires size > 0
    ensures Fits(step, size, sourceSize) <==> step <= StepFor(sourceSize, size)
  {
    var n := ONE * sourceSize;
    QuotientOrder(0, n, size);
    if step <= n / size {
      LessProduct(size, step, n / size);
    } else {
      DivisionBelow(n, size);
      LessProduct(size, n / size + 1, step);
    }
  }

  lemma SourceInside(n: nat, step: nat, size: nat, sourceSize: nat)
    requires n < size && Fits(step, size, sourceSize)
    ensures Source(n, step) < sourceSize || (step == 0 && Source(n, step) == 0)
  {
    if step > 0 {
      NextMultiple(n, size, step);
    }
  }

  // ----- interpolation of one channel -----

  function Between(a: Byte, b: Byte, e: nat): (t: Byte)
    requires e < ONE
    ensures if a <= b then a <= t <= b else b <= t <= a
    ensures e == 0 ==> t == a
  {
    Weighted(a, b, e);
    ((b - a) * e / ONE + a) % 0x100
  }

  lemma Weighted(a: Byte, b: Byte, e: nat)
    requires e < ONE
    ensures var t := (b - a) * e / ONE + a; 0 <= t < 0x100 && (if a <= b then a <= t <= b else b <= t <= a)
    ensures e == 0 ==> (b - a) * e / ONE == 0
  {
    PartOfDistance(b - a, e);
    assert e == 0 ==> (b - a) * e == 0;
  }

  lemma PartOfDistance(d: int, e: nat)
    requires e < ONE
    ensures if d >= 0 then 0 <= d * e / ONE <= d else d <= d * e / ONE <= 0
  {
    if d >= 0 {
      LessProduct(d, e, ONE);
    } else {
      LessProduct(-d, e, ONE);
      assert d * e == -((-d) * e);
    }
  }

  function Interpolated(c00: Byte, c01: Byte, c10: Byte, c11: Byte, ex: nat, ey: nat): Byte
    requires ex < ONE && ey < ONE
  {
    Between(Between(c00, c01, ex), Between(c10, c11, ex), ey)
  }

  /** A channel of the result lies between those of the four pixels, and is the
      channel of the first where the position has no fraction. */
  lemma InterpolatedIsBetween(c00: Byte, c01: Byte, c10: Byte, c11: Byte, ex: nat, ey: nat)
    requires ex < ONE && ey < ONE
    ensures Min(Min(c00, c01), Min(c10, c11)) <= Interpolated(c00, c01, c10, c11, ex, ey)
         <= Max(Max(c00, c01), Max(c10, c11))
    ensures ex == 0 && ey == 0 ==> Interpolated(c00, c01, c10, c11, ex, ey) == c00
  {
    hide Between;
  }

  function InterpolatedPixel(c00: Word, c01: Word, c10: Word, c11: Word, ex: nat, ey: nat): Word
    requires ex < ONE && ey < ONE
  {
    Word(Interpolated(c00.a, c01.a, c10.a, c11.a, ex, ey), Interpolated(c00.r, c01.r, c10.r, c11.r, ex, ey),
         Interpolated(c00.g, c01.g, c10.g, c11.g, ex, ey), Interpolated(c00.b, c01.b, c10.b, c11.b, ex, ey))
  }

  /** The mean of four values weighted by two fractions, times ONE * ONE. */
  function Bilinear(c00: Byte, c01: Byte, c10: Byte, c11: Byte, ex: nat, ey: nat): int {
    (c00 * (ONE - ex) + c01 * ex) * (ONE - ey) + (c10 * (ONE - ex) + c11 * ex) * ey
  }

  /** A value that is the mean up to rounding down twice: ex weighs the columns,
      ey the rows. */
  predicate IsMean(t: Byte, c00: Byte, c01: Byte, c10: Byte, c11: Byte, ex: nat, ey: nat) {
    0 <= Bilinear(c00, c01, c10, c11, ex, ey) - ONE * ONE * t < 2 * ONE * ONE
  }

  lemma BetweenIsMean(a: Byte, b: Byte, e: nat)
    requires e < ONE
    ensures 0 <= a * (ONE - e) + b * e - ONE * Between(a, b, e) < ONE
  {
    Weighted(a, b, e);
    Distribute(b, a, e);
    Distribute(ONE, e, a);
    var p := (b - a) * e;
    assert p == p / ONE * ONE + p % ONE;
  }

  lemma InterpolatedIsMean(c00: Byte, c01: Byte, c10: Byte, c11: Byte, ex: nat, ey: nat)
    requires ex < ONE && ey < ONE
    ensures IsMean(Interpolated(c00, c01, c10, c11, ex, ey), c00, c01, c10, c11, ex, ey)
  {
    hide Between;
    var top, bottom := Between(c00, c01, ex), Between(c10, c11, ex);
    BetweenIsMean(c00, c01, ex);
    BetweenIsMean(c10, c11, ex);
    BetweenIsMean(top, bottom, ey);
    TwoMeans(c00 * (ONE - ex) + c01 * ex, c10 * (ONE - ex) + c11 * ex, top, bottom, ey,
             Between(top, bottom, ey));
  }

  lemma TwoMeans(t: int, b: int, top: int, bottom: int, ey: nat, m: int)
    requires 0 <= t - ONE * top < ONE && 0 <= b - ONE * bottom < ONE && ey < ONE
    requires 0 <= top * (ONE - ey) + bottom * ey - ONE * m < ONE
    ensures 0 <= t * (ONE - ey) + b * ey - ONE * ONE * m < 2 * ONE * ONE
  {
    var f := ONE - ey;
    RestTimes(t, top, f);
    RestTimes(b, bottom, ey);
  }

  lemma RestTimes(t: int, top: int, f: nat)
    requires 0 <= t - ONE * top < ONE
    ensures 0 <= t * f - ONE * (top * f) <= ONE * f
  {
    LessProduct(f, t - ONE * top, ONE);
    Distribute(t, ONE * top, f);
    assert ONE * top * f == ONE * (top * f);
  }

  /** Every channel of an interpolated pixel is the mean of that channel of the
      four pixels. */
  lemma InterpolatedPixelIsMean(c00: Word, c01: Word, c10: Word, c11: Word, ex: nat, ey: nat)
    requires ex < ONE && ey < ONE
    ensures var p := InterpolatedPixel(c00, c01, c10, c11, ex, ey);
            && IsMean(p.a, c00.a, c01.a, c10.a, c11.a, ex, ey) && IsMean(p.r, c00.r, c01.r, c10.r, c11.r, ex, ey)
            && IsMean(p.g, c00.g, c01.g, c10.g, c11.g, ex, ey) && IsMean(p.b, c00.b, c01.b, c10.b, c11.b, ex, ey)
  {
    hide IsMean, Interpolated;
    InterpolatedIsMean(c00.a, c01.a, c10.a, c11.a, ex, ey);
    InterpolatedIsMean(c00.r, c01.r, c10.r, c11.r, ex, ey);
    InterpolatedIsMean(c00.g, c01.g, c10.g, c11.g, ex, ey);
    InterpolatedIsMean(c00.b, c01.b, c10.b, c11.b, ex, ey);
  }

  /** With the step of the source, destination position n is at n times the ratio
      of the sizes, in 1/65536, or less than n such parts in front of it. */
  lemma PositionFollowsRatio(n: nat, sourceSize: nat, size: nat)
    requires size > 0
    ensures var step := StepFor(sourceSize, size);
            var place := ONE * Source(n, step) + Fraction(n, step);
            0 <= ONE * (n * sourceSize) - place * size <= n * (size - 1)
  {
    var total := ONE * sourceSize;
    var step, rest := total / size, total % size;
    assert total == step * size + rest;
    QuotientOrder(0, total, size);
    LessProduct(n, 0, step);
    assert n * step == ONE * (n * step / ONE) + n * step % ONE;
    Distribute(step * size, rest, n);
    assert n * (step * size) == (n * step) * size;
    assert ONE * (n * sourceSize) == n * total;
    LessProduct(n, rest, size - 1);
  }

  // ----- what each destination pixel is -----

  datatype Mode = Nearest(flipX: bool, flipY: bool) | Smooth

  function Mirror(n: int, size: int, flip: bool): int {
    if flip then size - 1 - n else n
  }

  /** The steps of one zoom and the sizes they fit. */
  datatype Scale = Scale(mode: Mode, sx: nat, sy: nat, width: nat, height: nat) {
    /** The interpolating zoom counts the source as one pixel smaller. */
    predicate Suits(src: Image) {
      && src.Valid()
      && (mode.Nearest? ==> src.width > 0 && src.height > 0
                            && Fits(sx, width, src.width) && Fits(sy, height, src.height))
      && (mode.Smooth? ==> src.width > 1 && src.height > 1
                           && Fits(sx, width, src.width - 1) && Fits(sy, height, src.height - 1))
    }

    function Column(src: Image, x: nat): int {
      if mode.Nearest? then Mirror(Source(x, sx), src.width, mode.flipX) else Source(x, sx)
    }

    function Row(src: Image, y: nat): int {
      if mode.Nearest? then Mirror(Source(y, sy), src.height, mode.flipY) else Source(y, sy)
    }

    lemma ReadsInside(src: Image, x: nat, y: nat)
      requires Suits(src) && x < width && y < height
      ensures src.Contains(Column(src, x), Row(src, y))
      ensures mode.Smooth? ==> src.Contains(Column(src, x) + 1, Row(src, y) + 1)
    {
      var less := if mode.Smooth? then 1 else 0;
      SourceInside(x, sx, width, src.width - less);
      SourceInside(y, sy, height, src.height - less);
    }

    function Sample(src: Image, x: nat, y: nat): Word
      requires Suits(src) && x < width && y < height
    {
      ReadsInside(src, x, y);
      var c, r := Column(src, x), Row(src, y);
      if mode.Nearest? then src.At(c, r)
      else InterpolatedPixel(src.At(c, r), src.At(c + 1, r), src.At(c, r + 1), src.At(c + 1, r + 1),
                             Fraction(x, sx), Fraction(y, sy))
    }
  }

  /** The interpolating loop given a flip starts at the last column or row and
      still moves forward: its neighbours are on the surface only without flips
      and for sources of at least two pixels each way. */
  lemma SmoothNeedsRoom(flipX: bool, flipY: bool, sx: nat, sy: nat, width: nat, height: nat, src: Image, x: nat, y: nat)
    requires src.Valid() && src.width > 0 && src.height > 0 && x < width && y < height
    requires Fits(sx, width, src.width - 1) && Fits(sy, height, src.height - 1)
    ensures var column := (if flipX then src.width - 1 else 0) + Source(x, sx);
            var row := (if flipY then src.height - 1 else 0) + Source(y, sy);
            (src.Contains(column, row) && src.Contains(column + 1, row + 1))
              <==> (!flipX && !flipY && src.width > 1 && src.height > 1)
  {
    SourceInside(x, sx, width, src.width - 1);
    SourceInside(y, sy, height, src.height - 1);
  }

  /** With equal sizes the nearest pixel is the pixel itself or its mirror
      image. */
  lemma SameSizeCopies(mode: Mode, src: Image, x: nat, y: nat)
    requires mode.Nearest? && src.Valid() && src.Contains(x, y)
    ensures var z := Scale(mode, ONE, ONE, src.width, src.height);
            z.Suits(src) && src.Contains(Mirror(x, src.width, mode.flipX), Mirror(y, src.height, mode.flipY))
            && z.Sample(src, x, y) == src.At(Mirror(x, src.width, mode.flipX), Mirror(y, src.height, mode.flipY))
  {
  }

  // ----- the loops -----

  /** The pixels in front of (x, y) in reading order have been written. */
  ghost predicate Zoomed(z: Scale, src: Image, before: Image, now: Image, x: nat, y: nat)
    requires before.Valid() && z.Suits(src) && before.width == z.width && before.height == z.height
  {
    && now.SameShape(before)
    && (forall px, py :: now.Contains(px, py) ==> PixelZoomed(z, src, before, now, x, y, px, py))
    && (forall i :: 0 <= i < |now.data| && !now.IsPixelIndex(i) ==> now.data[i] == before.data[i])
  }

  ghost predicate PixelZoomed(z: Scale, src: Image, before: Image, now: Image, x: nat, y: nat, px: int, py: int)
    requires before.Valid() && z.Suits(src) && before.width == z.width && before.height == z.height
    requires now.SameShape(before) && now.Contains(px, py)
  {
    now.At(px, py) == if py < y || (py == y && px < x) then z.Sample(src, px, py) else before.At(px, py)
  }

  lemma PixelWritten(z: Scale, src: Image, before: Image, mid: Image, now: Image, x: nat, y: nat)
    requires before.Valid() && mid.Valid() && z.Suits(src) && before.width == z.width && before.height == z.height
    requires Zoomed(z, src, before, mid, x, y) && before.Contains(x, y)
    requires 0 <= mid.Index(x, y) < |mid.data| && now == mid.(data := mid.data[mid.Index(x, y) := z.Sample(src, x, y)])
    ensures now.SameShape(before)
    ensures forall next: nat :: next == x + 1 ==> Zoomed(z, src, before, now, next, y)
  {
    var next := x + 1;
    forall px, py | now.Contains(px, py)
      ensures PixelZoomed(z, src, before, now, next, y, px, py)
    {
      assert PixelZoomed(z, src, before, mid, x, y, px, py);
      mid.IndexInData(px, py);
      if mid.Index(px, py) == mid.Index(x, y) {
        SamePosition(mid.pitch, py, px, y, x);
      }
    }
    RowColumn(mid.pitch, y, x);
  }

  lemma NextRow(z: Scale, src: Image, before: Image, now: Image, y: nat)
    requires before.Valid() && z.Suits(src) && before.width == z.width && before.height == z.height
    requires Zoomed(z, src, before, now, before.width, y)
    ensures forall next: nat :: next == y + 1 ==> Zoomed(z, src, before, now, 0, next)
  {
    var next := y + 1;
    forall px, py | now.Contains(px, py)
      ensures PixelZoomed(z, src, before, now, 0, next, px, py)
    {
      assert PixelZoomed(z, src, before, now, before.width, y, px, py);
    }
  }

  /** The distance in the source array from one column or row to the next one
      to be read. */
  lemma NextColumn(z: Scale, src: Image, x: nat)
    ensures var step := Increment(x + 1, z.sx) / ONE;
            z.Column(src, x + 1) == z.Column(src, x) + (if z.mode.Nearest? && z.mode.flipX then -step else step)
  {
    IncrementsAddUp(x, z.sx);
  }

  /** Where a row of the source starts in its array. */
  function RowStart(z: Scale, src: Image, y: nat): int {
    z.Row(src, y) * src.pitch
  }

  lemma NextRowStart(z: Scale, src: Image, y: nat)
    ensures var step := Increment(y + 1, z.sy) / ONE * src.pitch;
            RowStart(z, src, y + 1) == RowStart(z, src, y) + (if z.mode.Nearest? && z.mode.flipY then -step else step)
  {
    IncrementsAddUp(y, z.sy);
    Distribute(z.Row(src, y), Increment(y + 1, z.sy) / ONE, src.pitch);
  }

  lemma StartPosition(z: Scale, src: Image)
    ensures z.Column(src, 0) == (if z.mode.Nearest? && z.mode.flipX then src.width - 1 else 0)
    ensures RowStart(z, src, 0) == (if z.mode.Nearest? && z.mode.flipY then src.pitch * (src.height - 1) else 0)
  {
    IncrementsAddUp(0, z.sx);
    IncrementsAddUp(0, z.sy);
  }

  lemma NothingZoomed(z: Scale, src: Image, image: Image)
    requires image.Valid() && z.Suits(src) && image.width == z.width && image.height == z.height
    ensures Zoomed(z, src, image, image, 0, 0)
  {
  }

  /** What the array index of a source pixel is and that it can be read. */
  lemma ReadIndex(z: Scale, src: Image, x: nat, y: nat)
    requires z.Suits(src) && x < z.width && y < z.height
    ensures var i := RowStart(z, src, y) + z.Column(src, x);
            0 <= i < |src.data| && src.Contains(z.Column(src, x), z.Row(src, y))
            && src.data[i] == src.At(z.Column(src, x), z.Row(src, y))
    ensures z.mode.Nearest? ==> src.data[RowStart(z, src, y) + z.Column(src, x)] == z.Sample(src, x, y)
  {
    z.ReadsInside(src, x, y);
    src.IndexInData(z.Column(src, x), z.Row(src, y));
  }

  lemma ReadFour(z: Scale, src: Image, x: nat, y: nat)
    requires z.Suits(src) && z.mode.Smooth? && x < z.width && y < z.height
    ensures var i := RowStart(z, src, y) + z.Column(src, x);
            && 0 <= i && i + 1 < |src.data| && i + src.pitch + 1 < |src.data|
            && InterpolatedPixel(src.data[i], src.data[i + 1], src.data[i + src.pitch], src.data[i + src.pitch + 1],
                                 Fraction(x, z.sx), Fraction(y, z.sy)) == z.Sample(src, x, y)
  {
    hide InterpolatedPixel, Fraction;
    z.ReadsInside(src, x, y);
    var c, r := z.Column(src, x), z.Row(src, y);
    src.IndexInData(c, r);
    src.IndexInData(c + 1, r);
    src.IndexInData(c, r + 1);
    src.IndexInData(c + 1, r + 1);
    Distribute(r, 1, src.pitch);
  }

  /** Writes the pixel (x, y) of the destination at its place in reading order. */
  method WritePixel(dst: Surface, dp: int, value: Word, ghost z: Scale, ghost src: Image, ghost before: Image,
      ghost x: nat, ghost y: nat)
    requires dst.Valid() && before.Valid() && z.Suits(src) && before.width == z.width && before.height == z.height
    requires Zoomed(z, src, before, dst.Content(), x, y) && before.Contains(x, y)
    requires dp == dst.Content().Index(x, y) && value == z.Sample(src, x, y)
    modifies dst.data
    ensures dst.Valid()
    ensures forall next: nat :: next == x + 1 ==> Zoomed(z, src, before, dst.Content(), next, y)
  {
    ghost var mid := dst.Content();
    mid.IndexInData(x, y);
    dst.data[dp] := value;
    PixelWritten(z, src, before, mid, dst.Content(), x, y);
  }

  /** The loop over a row without interpolation. */
  method NearestRow(src: Surface, dst: Surface, sax: array<int>, flipX: bool, csp: int, start: int,
      ghost z: Scale, ghost before: Image, ghost y: nat)
    requires src.Valid() && dst.Valid() && src.data != dst.data && z.Suits(src.Content())
    requires z.mode.Nearest? && z.mode.flipX == flipX && before.Valid() && before.width == z.width == dst.width
    requires before.height == z.height && y < z.height && start == y * before.pitch
    requires csp == RowStart(z, src.Content(), y) + z.Column(src.Content(), 0)
    requires IsTable(sax, dst.width, z.sx)
    requires Zoomed(z, src.Content(), before, dst.Content(), 0, y)
    modifies dst.data
    ensures dst.Valid()
    ensures Zoomed(z, src.Content(), before, dst.Content(), 0, y + 1)
  {
    hide Zoomed, Increment, RowStart;
    ghost var image, base := src.Content(), RowStart(z, src.Content(), y);
    Shapes(z, image, before, dst.Content(), 0, y);
    var sp, dp := csp, start;
    for x := 0 to dst.width
      invariant dst.Valid() && src.Content() == image
      invariant sp == base + z.Column(image, x) && dp == start + x
      invariant Zoomed(z, image, before, dst.Content(), x, y)
    {
      ReadIndex(z, image, x, y);
      Shapes(z, image, before, dst.Content(), x, y);
      WritePixel(dst, dp, src.data[sp], z, image, before, x, y);
      NextColumn(z, image, x);
      var sstep := sax[x + 1] / ONE;
      if flipX {
        sstep := -sstep;
      }
      sp := sp + sstep;
      dp := dp + 1;
    }
    NextRow(z, image, before, dst.Content(), y);
  }

  lemma Shapes(z: Scale, src: Image, before: Image, now: Image, x: nat, y: nat)
    requires before.Valid() && z.Suits(src) && before.width == z.width && before.height == z.height
    requires Zoomed(z, src, before, now, x, y)
    ensures now.SameShape(before)
  {
  }

  /** The loops without interpolation. */
  method ZoomNearest(src: Surface, dst: Surface, flipX: bool, flipY: bool, sx: nat, sy: nat)
    requires src.Valid() && dst.Valid() && src.data != dst.data
    requires Scale(Nearest(flipX, flipY), sx, sy, dst.width, dst.height).Suits(src.Content())
    modifies dst.data
    ensures dst.Valid()
    ensures Zoomed(Scale(Nearest(flipX, flipY), sx, sy, dst.width, dst.height), src.Content(),
                   old(dst.Content()), dst.Content(), 0, dst.height)
  {
    hide Zoomed, Increment, RowStart;
    ghost var z := Scale(Nearest(flipX, flipY), sx, sy, dst.width, dst.height);
    ghost var image, before := src.Content(), dst.Content();
    var sax := Increments(dst.width, sx);
    var say := Increments(dst.height, sy);
    var pitch, dpitch := src.stride / 4, dst.stride / 4;
    var csp, dp := 0, 0;
    if flipX {
      csp := csp + (src.width - 1);
    }
    if flipY {
      csp := csp + pitch * (src.height - 1);
    }
    StartPosition(z, image);
    NothingZoomed(z, image, before);
    for y := 0 to dst.height
      invariant dst.Valid() && src.Content() == image
      invariant IsTable(sax, dst.width, sx) && IsTable(say, dst.height, sy)
      invariant csp == RowStart(z, image, y) + z.Column(image, 0) && dp == y * dpitch
      invariant Zoomed(z, image, before, dst.Content(), 0, y)
    {
      NearestRow(src, dst, sax, flipX, csp, dp, z, before, y);
      NextRowStart(z, image, y);
      var sstep := say[y + 1] / ONE * pitch;
      if flipY {
        sstep := -sstep;
      }
      csp := csp + sstep;
      Distribute(y, 1, dpitch);
      dp := dp + dpitch;
    }
  }

  /** The loop over a row with interpolation. */
  method SmoothRow(src: Surface, dst: Surface, sax: array<int>, csay: int, csp: int, start: int,
      ghost z: Scale, ghost before: Image, ghost y: nat)
    requires src.Valid() && dst.Valid() && src.data != dst.data && z.Suits(src.Content())
    requires z.mode.Smooth? && before.Valid() && before.width == z.width == dst.width
    requires before.height == z.height && y < z.height && start == y * before.pitch
    requires csp == RowStart(z, src.Content(), y) && csay == Increment(y, z.sy)
    requires IsTable(sax, dst.width, z.sx)
    requires Zoomed(z, src.Content(), before, dst.Content(), 0, y)
    modifies dst.data
    ensures dst.Valid()
    ensures Zoomed(z, src.Content(), before, dst.Content(), 0, y + 1)
  {
    hide Zoomed, Increment, RowStart, Fraction, InterpolatedPixel;
    ghost var image := src.Content();
    var pitch := src.stride / 4;
    StartPosition(z, image);
    IncrementsAddUp(y, z.sy);
    var c00, c01, c10, c11 := csp, csp + 1, csp + pitch, csp + pitch + 1;
    var dp := start;
    for x := 0 to dst.width
      invariant dst.Valid() && src.Content() == image
      invariant c00 == csp + z.Column(image, x) && dp == start + x
      invariant c01 == c00 + 1 && c10 == c00 + pitch && c11 == c10 + 1
      invariant Zoomed(z, image, before, dst.Content(), x, y)
    {
      ReadFour(z, image, x, y);
      IncrementsAddUp(x, z.sx);
      Shapes(z, image, before, dst.Content(), x, y);
      var ex, ey := sax[x] % ONE, csay % ONE;
      var value := InterpolatedPixel(src.data[c00], src.data[c01], src.data[c10], src.data[c11], ex, ey);
      WritePixel(dst, dp, value, z, image, before, x, y);
      NextColumn(z, image, x);
      var sstep := sax[x + 1] / ONE;
      c00, c01, c10, c11 := c00 + sstep, c01 + sstep, c10 + sstep, c11 + sstep;
      dp := dp + 1;
    }
    NextRow(z, image, before, dst.Content(), y);
  }

  /** The loops with interpolation, where they do not read outside. */
  method ZoomSmooth(src: Surface, dst: Surface, sx: nat, sy: nat)
    requires src.Valid() && dst.Valid() && src.data != dst.data
    requires Scale(Smooth, sx, sy, dst.width, dst.height).Suits(src.Content())
    modifies dst.data
    ensures dst.Valid()
    ensures Zoomed(Scale(Smooth, sx, sy, dst.width, dst.height), src.Content(),
                   old(dst.Content()), dst.Content(), 0, dst.height)
  {
    hide Zoomed, Increment, RowStart;
    ghost var z, image, before := Scale(Smooth, sx, sy, dst.width, dst.height), src.Content(), dst.Content();
    var sax := Increments(dst.width, sx);
    var say := Increments(dst.height, sy);
    var pitch, dpitch := src.stride / 4, dst.stride / 4;
    var csp, dp := 0, 0;
    StartPosition(z, image);
    NothingZoomed(z, image, before);
    for y := 0 to dst.height
      invariant dst.Valid() && src.Content() == image
      invariant IsTable(sax, dst.width, sx) && IsTable(say, dst.height, sy)
      invariant csp == RowStart(z, image, y) && dp == y * dpitch
      invariant Zoomed(z, image, before, dst.Content(), 0, y)
    {
      SmoothRow(src, dst, sax, say[y], csp, dp, z, before, y);
      NextRowStart(z, image, y);
      csp := csp + say[y + 1] / ONE * pitch;
      Distribute(y, 1, dpitch);
      dp := dp + dpitch;
    }
  }

  /** What the interpolating zoom leaves: every channel of a pixel is the mean of
      that channel of the four source pixels around its position. */
  lemma SmoothPixelIsMean(z: Scale, src: Image, before: Image, now: Image, x: nat, y: nat)
    requires before.Valid() && z.Suits(src) && z.mode.Smooth? && before.width == z.width && before.height == z.height
    requires Zoomed(z, src, before, now, 0, z.height) && now.Contains(x, y)
    ensures src.Contains(Source(x, z.sx), Source(y, z.sy)) && src.Contains(Source(x, z.sx) + 1, Source(y, z.sy) + 1)
    ensures var c, r, ex, ey := Source(x, z.sx), Source(y, z.sy), Fraction(x, z.sx), Fraction(y, z.sy);
            var c00, c01, c10, c11 := src.At(c, r), src.At(c + 1, r), src.At(c, r + 1), src.At(c + 1, r + 1);
            var p := now.At(x, y);
            && IsMean(p.a, c00.a, c01.a, c10.a, c11.a, ex, ey) && IsMean(p.r, c00.r, c01.r, c10.r, c11.r, ex, ey)
            && IsMean(p.g, c00.g, c01.g, c10.g, c11.g, ex, ey) && IsMean(p.b, c00.b, c01.b, c10.b, c11.b, ex, ey)
  {
    hide IsMean, InterpolatedPixel, Source, Fraction, Image.At;
    z.ReadsInside(src, x, y);
    var c, r := Source(x, z.sx), Source(y, z.sy);
    assert PixelZoomed(z, src, before, now, 0, z.height, x, y);
    InterpolatedPixelIsMean(src.At(c, r), src.At(c + 1, r), src.At(c, r + 1), src.At(c + 1, r + 1),
                            Fraction(x, z.sx), Fraction(y, z.sy));
  }

  /** What ZoomSurfaceRGBA works with for two surfaces. */
  function ScaleFor(mode: Mode, src: Image, width: nat, height: nat): Scale
    requires src.Valid() && src.width > 0 && src.height > 0
  {
    var less := if mode.Smooth? then 1 else 0;
    Scale(mode, StepFor(src.width - less, width), StepFor(src.height - less, height), width, height)
  }

  lemma ScaleForSuits(mode: Mode, src: Image, width: nat, height: nat)
    requires src.Valid() && src.width > 0 && src.height > 0 && (mode.Smooth? ==> src.width > 1 && src.height > 1)
    ensures ScaleFor(mode, src, width, height).Suits(src)
  {
    hide StepFor;
    var less := if mode.Smooth? then 1 else 0;
    var z := ScaleFor(mode, src, width, height);
    if width > 0 {
      StepFits(z.sx, width, src.width - less);
    }
    if height > 0 {
      StepFits(z.sy, height, src.height - less);
    }
  }

  /** Its positions follow the ratio of the sizes, each axis its own; between pixels
      the source counts as one smaller. */
  lemma ScaleFollowsRatio(mode: Mode, src: Image, width: nat, height: nat, x: nat, y: nat)
    requires src.Valid() && src.width > 0 && src.height > 0 && width > 0 && height > 0
    ensures var z, less := ScaleFor(mode, src, width, height), if mode.Smooth? then 1 else 0;
            var px, py := ONE * Source(x, z.sx) + Fraction(x, z.sx), ONE * Source(y, z.sy) + Fraction(y, z.sy);
            && 0 <= ONE * (x * (src.width - less)) - px * width <= x * (width - 1)
            && 0 <= ONE * (y * (src.height - less)) - py * height <= y * (height - 1)
            && z.mode == mode && z.width == width && z.height == height
  {
    hide Source, Fraction, StepFor;
    var less := if mode.Smooth? then 1 else 0;
    PositionFollowsRatio(x, src.width - less, width);
    PositionFollowsRatio(y, src.height - less, height);
  }

  /** ZoomSurfaceRGBA: the steps, then one of the two loops. */
  method ZoomSurface(src: Surface, dst: Surface, flipX: bool, flipY: bool, smooth: bool)
    requires src.Valid() && dst.Valid() && src.data != dst.data && src.width > 0 && src.height > 0
    requires smooth ==> !flipX && !flipY && src.width > 1 && src.height > 1
    modifies dst.data
    ensures dst.Valid()
    ensures var z := ScaleFor(if smooth then Smooth else Nearest(flipX, flipY), src.Content(), dst.width, dst.height);
            z.Suits(src.Content()) && Zoomed(z, src.Content(), old(dst.Content()), dst.Content(), 0, dst.height)
  {
    hide Zoomed, Scale.Suits;
    ScaleForSuits(if smooth then Smooth else Nearest(flipX, flipY), src.Content(), dst.width, dst.height);
    if smooth {
      ZoomSmooth(src, dst, StepFor(src.width - 1, dst.width), StepFor(src.height - 1, dst.height));
    } else {
      ZoomNearest(src, dst, flipX, flipY, StepFor(src.width, dst.width), StepFor(src.height, dst.height));
    }
  }
}
