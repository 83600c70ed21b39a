/** Clipping a blit, setting it up and running it. */
module Blit {
  import opened Arithmetic
  import opened Words
  import opened PixelFormats
  import opened Kernels
  import opened Rects
  import opened Surfaces
  import opened BlitRows

  // ----- what a blit asks for -----

  /** A missing source rectangle means the whole surface. */
  function SourceRect(src: Surface, rectSource: Option<Rect>): Rect
    reads src
  {
    if rectSource.Some? then rectSource.value else src.Bounds()
  }

  /** How far source coordinates lie from destination coordinates. */
  function ShiftX(src: Surface, rectSource: Option<Rect>, rectDest: Option<Rect>): int
    reads src
  {
    SourceRect(src, rectSource).x - (if rectDest.Some? then rectDest.value.x else 0)
  }

  function ShiftY(src: Surface, rectSource: Option<Rect>, rectDest: Option<Rect>): int
    reads src
  {
    SourceRect(src, rectSource).y - (if rectDest.Some? then rectDest.value.y else 0)
  }

  /** The existing source pixels of the source rectangle, in destination coordinates. */
  function Available(src: Surface, rectSource: Option<Rect>, rectDest: Option<Rect>): Rect
    reads src
  {
    var r := Meet(SourceRect(src, rectSource), src.Bounds());
    r.(x := r.x - ShiftX(src, rectSource, rectDest), y := r.y - ShiftY(src, rectSource, rectDest))
  }

  /** ... cut by the destination's clip rectangle and the optional extra one. */
  function Region(src: Surface, rectSource: Option<Rect>, dst: Surface, rectDest: Option<Rect>,
                  destClip: Option<Rect>): Rect
    reads src, dst, dst.clip
  {
    var r := Meet(Available(src, rectSource, rectDest), dst.clip.Value());
    if destClip.Some? then Meet(r, destClip.value) else r
  }

  /** A destination pixel belongs to it if the four rectangles that count let it,
      two of them seen from the source. The size of a destination rectangle does
      not count, only its corner. */
  lemma RegionHas(src: Surface, rectSource: Option<Rect>, dst: Surface, rectDest: Option<Rect>, destClip: Option<Rect>,
                  x: int, y: int)
    ensures var sx := x + SourceRect(src, rectSource).x - (if rectDest.Some? then rectDest.value.x else 0);
            var sy := y + SourceRect(src, rectSource).y - (if rectDest.Some? then rectDest.value.y else 0);
            Region(src, rectSource, dst, rectDest, destClip).Has(x, y) <==>
              && (rectSource.Some? ==> rectSource.value.Has(sx, sy)) && src.Contains(sx, sy)
              && dst.clip.Value().Has(x, y) && (destClip.Some? ==> destClip.value.Has(x, y))
  {
    var sx, sy := x + ShiftX(src, rectSource, rectDest), y + ShiftY(src, rectSource, rectDest);
    MeetHas(SourceRect(src, rectSource), src.Bounds(), sx, sy);
    MeetHas(Available(src, rectSource, rectDest), dst.clip.Value(), x, y);
    if destClip.Some? {
      MeetHas(Meet(Available(src, rectSource, rectDest), dst.clip.Value()), destClip.value, x, y);
    }
    hide Meet;
  }

  // ----- ClipForBlit -----

  /** One axis of clipping the source rectangle to its surface: what is cut off
      in front moves the destination along. */
  method ClipToSource(start: int, size: int, limit: int, dest: int) returns (start': int, size': int, dest': int)
    ensures dest' == Max(start, 0) - (start - dest) && start' == Max(start, 0)
    ensures size' == Min(start + size, limit) - start'
  {
    start', size', dest' := start, size, dest;
    if start' < 0 {
      size' := size' + start';
      dest' := dest' - start';
      start' := 0;
    }
    var most := limit - start';
    if most < size' {
      size' := most;
    }
  }

  /** One axis of clipping the destination: the source start moves along. */
  method ClipToDest(low: int, extent: int, start: int, size: int, dest: int)
    returns (start': int, size': int, dest': int)
    ensures dest' == Max(dest, low) && start' == start + (dest' - dest)
    ensures size' == Min(dest + size, low + extent) - dest'
  {
    start', size', dest' := start, size, dest;
    var d := low - dest';
    if d > 0 {
      size' := size' - d;
      dest' := dest' + d;
      start' := start' + d;
    }
    d := dest' + size' - (low + extent);
    if d > 0 {
      size' := size' - d;
    }
  }

  /** Cuts both rectangles down together, or reports that nothing is left. */
  method ClipForBlit(src: Surface, rectSource: Option<Rect>, dst: Surface, rectDest: Option<Rect>)
    returns (draw: bool, s: Rect, d: Rect)
    requires src.width >= 0 && src.height >= 0
    ensures var visible := Meet(Available(src, rectSource, rectDest), dst.clip.Value());
            && (draw <==> visible.w > 0 && visible.h > 0)
            && (draw ==> d == visible)
            && (draw ==> s == d.(x := d.x + ShiftX(src, rectSource, rectDest),
                                 y := d.y + ShiftY(src, rectSource, rectDest)))
  {
    var srcX, srcY, w, h := 0, 0, src.width, src.height;
    var destX, destY := 0, 0;
    if rectDest.Some? {
      destX, destY := rectDest.value.x, rectDest.value.y;
    }
    if rectSource.Some? {
      srcX, w, destX := ClipToSource(rectSource.value.x, rectSource.value.w, src.width, destX);
      srcY, h, destY := ClipToSource(rectSource.value.y, rectSource.value.h, src.height, destY);
    }
    assert Rect(destX, destY, w, h) == Available(src, rectSource, rectDest);
    srcX, w, destX := ClipToDest(dst.clip.x, dst.clip.w, srcX, w, destX);
    srcY, h, destY := ClipToDest(dst.clip.y, dst.clip.h, srcY, h, destY);
    draw := w > 0 && h > 0;
    s := Rect(srcX, srcY, w, h);
    d := Rect(destX, destY, w, h);
  }

  // ----- BlitNoClip -----

  /** The kernel a blit runs: the cached one if it was chosen for this
      destination, else a new choice. */
  function EffectiveKernel(src: Surface, dst: Surface): Kernel
    reads src, dst
  {
    if src.blitDest == dst && src.blitKernel.Some? then src.blitKernel.value
    else SelectKernel(src.format, src.alphaDisabled, dst.format, src == dst)
  }

  function BlitJob(src: Surface, dst: Surface, additive: bool): Job
    reads src, dst
  {
    Job(EffectiveKernel(src, dst), src.format, dst.format, additive)
  }

  /** Where the row loop reads for a destination pixel. The skip after each
      source row is taken from the source rectangle, so a destination that was
      made narrower reads every further row lost pixels too early. */
  function ReadIndex(src: Image, s: Rect, d: Rect, x: int, y: int): int {
    src.Index(x - d.x + s.x, y - d.y + s.y) - (y - d.y) * (s.w - d.w)
  }

  lemma ReadByRows(src: Image, s: Rect, d: Rect, x: int, y: int)
    ensures ReadIndex(src, s, d, x, y)
         == src.Index(s.x, s.y) + (y - d.y) * (src.pitch - (s.w - d.w)) + (x - d.x)
  {
    var row, pitch, lost := y - d.y, src.pitch, s.w - d.w;
    Distribute(row, s.y, pitch);
    assert row * (pitch - lost) == row * pitch - row * lost;
  }

  /** Every pixel of d went through f with the source pixel the row loop reads
      for it; nothing else in the destination's memory changed. */
  ghost predicate Drawn(f: PixelFunction, src: Image, s: Rect, before: Image, now: Image, d: Rect)
    requires before.Valid()
  {
    && now.SameShape(before)
    && (forall x, y :: now.Contains(x, y) ==> PixelDrawn(f, src, s, before, now, d, x, y))
    && (forall i :: 0 <= i < |now.data| && !now.IsPixelIndex(i) ==> now.data[i] == before.data[i])
  }

  ghost predicate PixelDrawn(f: PixelFunction, src: Image, s: Rect, before: Image, now: Image, d: Rect, x: int, y: int)
    requires before.Valid() && now.SameShape(before) && now.Contains(x, y)
  {
    if d.Has(x, y)
    then 0 <= ReadIndex(src, s, d, x, y) < |src.data|
         && now.At(x, y) == f(src.data[ReadIndex(src, s, d, x, y)], before.At(x, y))
    else now.At(x, y) == before.At(x, y)
  }

  /** A block of rows of the pixel array is a rectangle of the surface. */
  lemma BlockIsRect(dst: Image, d: Rect, x: int, y: int)
    requires dst.Valid() && dst.Contains(x, y) && d.Inside(dst.Bounds()) && d.x >= 0 && d.y >= 0 && d.w > 0 && d.h > 0
    ensures dst.pitch > 0
    ensures InBlock(dst.Index(x, y), dst.Index(d.x, d.y), dst.pitch, d.w, d.h) <==> d.Has(x, y)
    ensures d.Has(x, y) ==>
      (dst.Index(x, y) - dst.Index(d.x, d.y)) / dst.pitch == y - d.y &&
      (dst.Index(x, y) - dst.Index(d.x, d.y)) % dst.pitch == x - d.x
  {
    var pitch, i, start := dst.pitch, dst.Index(x, y), dst.Index(d.x, d.y);
    Distribute(y, d.y, pitch);
    assert i - start == (y - d.y) * pitch + (x - d.x);
    if d.Has(x, y) {
      RowColumn(pitch, y - d.y, x - d.x);
      assert 0 <= (y - d.y) * pitch;
    } else if InBlock(i, start, pitch, d.w, d.h) {
      BlockPosition(dst, d, i);
      SamePosition(pitch, y, x, d.y + (i - start) / pitch, d.x + (i - start) % pitch);
    }
  }

  lemma BlockPosition(dst: Image, d: Rect, i: int)
    requires d.Inside(dst.Bounds()) && d.x >= 0 && d.y >= 0 && d.w > 0 && d.h > 0 && dst.pitch >= dst.width
    requires dst.pitch > 0 && InBlock(i, dst.Index(d.x, d.y), dst.pitch, d.w, d.h)
    ensures var k := i - dst.Index(d.x, d.y);
            i == (d.y + k / dst.pitch) * dst.pitch + (d.x + k % dst.pitch) && k / dst.pitch >= 0
    ensures dst.IsPixelIndex(i)
  {
    var pitch := dst.pitch;
    var k := i - dst.Index(d.x, d.y);
    PlaceOf(pitch, d.x, d.y, k);
  }

  /** The row and column of a place k behind (x, y). */
  lemma PlaceOf(pitch: nat, x: nat, y: nat, k: nat)
    requires pitch > 0 && x + k % pitch < pitch
    ensures var i := y * pitch + x + k;
            i == (y + k / pitch) * pitch + (x + k % pitch) && i / pitch == y + k / pitch && i % pitch == x + k % pitch
    ensures 0 <= k / pitch
  {
    AdvanceBy(pitch, y, x, k);
    RowColumn(pitch, y + k / pitch, x + k % pitch);
    QuotientOrder(0, k, pitch);
  }

  /** The kernel is chosen anew when the destination is another one than last time. */
  method ChooseKernel(src: Surface, dst: Surface)
    modifies src`blitDest, src`blitKernel
    ensures src.blitDest == dst && src.blitKernel == Some(old(EffectiveKernel(src, dst)))
  {
    if src.blitDest != dst || src.blitKernel.None? {
      src.blitDest := dst;
      src.blitKernel := Some(SelectKernel(src.format, src.alphaDisabled, dst.format, src == dst));
    }
  }

  /** Runs the kernel over two rectangles that are already cut to size. */
  method BlitNoClip(src: Surface, s: Rect, dst: Surface, d: Rect, additive: bool) returns (result: int)
    requires src.Valid() && dst.Valid() && src != dst && src.data != dst.data
    requires s.x >= 0 && s.y >= 0 && s.Inside(src.Bounds())
    requires d.x >= 0 && d.y >= 0 && d.Inside(dst.Bounds())
    requires 0 < d.w <= s.w && 0 < d.h <= s.h
    modifies src`blitDest, src`blitKernel, dst.data
    ensures result == 0 && src.Valid() && dst.Valid()
    ensures src.blitDest == dst && src.blitKernel == Some(old(EffectiveKernel(src, dst)))
    ensures Drawn(old(BlitJob(src, dst, additive)).Function(), src.Content(), s, old(dst.Content()), dst.Content(), d)
  {
    hide SelectKernel, BlockDone, Drawn;
    ghost var before := BlitJob(src, dst, additive);
    ChooseKernel(src, dst);
    var job := Job(src.blitKernel.value, src.format, dst.format, additive);
    assert job == before;

    var srcStart := s.y * (src.stride / 4) + s.x;
    var srcSkip := (src.stride - 4 * s.w) / 4;
    var dstStart := d.y * (dst.stride / 4) + d.x;
    var dstSkip := (dst.stride - 4 * d.w) / 4;
    SkipIs(src.stride, s.w);
    SkipIs(dst.stride, d.w);
    BlockFits(src.stride / 4, d.w + srcSkip, s.x, s.y, d.w, d.h, src.height, src.data.Length);
    BlockFits(dst.stride / 4, d.w + dstSkip, d.x, d.y, d.w, d.h, dst.height, dst.data.Length);
    BlitBlock(job, src.data, srcStart, srcSkip, dst.data, dstStart, dstSkip, d.w, d.h);
    RectDone(job.Function(), src.Content(), s, old(dst.Content()), dst.Content(), d);
    result := 0;
  }

  lemma SkipIs(stride: int, w: int)
    requires stride % 4 == 0
    ensures (stride - 4 * w) / 4 == stride / 4 - w
  {
  }

  lemma RectDone(f: PixelFunction, src: Image, s: Rect, before: Image, now: Image, d: Rect)
    requires src.Valid() && before.Valid() && now.SameShape(before)
    requires s.x >= 0 && s.y >= 0 && s.Inside(src.Bounds())
    requires d.x >= 0 && d.y >= 0 && d.Inside(now.Bounds())
    requires 0 < d.w <= s.w && 0 < d.h <= s.h
    requires src.Index(s.x, s.y) >= 0 && now.Index(d.x, d.y) >= 0 && now.pitch > 0
    requires BlockDone(f, src.data, src.Index(s.x, s.y), src.pitch - (s.w - d.w),
                       before.data, now.data, now.Index(d.x, d.y), now.pitch, d.w, d.h)
    ensures Drawn(f, src, s, before, now, d)
  {
    forall x, y | now.Contains(x, y)
      ensures PixelDrawn(f, src, s, before, now, d, x, y)
    {
      now.IndexInData(x, y);
      BlockIsRect(now, d, x, y);
      ReadByRows(src, s, d, x, y);
    }
    forall i | 0 <= i < |now.data| && !now.IsPixelIndex(i)
      ensures now.data[i] == before.data[i]
    {
      if InBlock(i, now.Index(d.x, d.y), now.pitch, d.w, d.h) {
        BlockPosition(now, d, i);
      }
    }
  }

  // ----- Blit -----

  /** What a blit is for: every pixel of the region went through f with the
      source pixel at a fixed offset; nothing else changed. */
  ghost predicate Blitted(f: PixelFunction, src: Image, shiftX: int, shiftY: int,
                          before: Image, now: Image, region: Rect)
    requires src.Valid() && before.Valid()
  {
    && now.SameShape(before)
    && (forall x, y :: now.Contains(x, y) ==> PixelBlitted(f, src, shiftX, shiftY, before, now, region, x, y))
    && (forall i :: 0 <= i < |now.data| && !now.IsPixelIndex(i) ==> now.data[i] == before.data[i])
  }

  ghost predicate PixelBlitted(f: PixelFunction, src: Image, shiftX: int, shiftY: int,
                               before: Image, now: Image, region: Rect, x: int, y: int)
    requires src.Valid() && before.Valid() && now.SameShape(before) && now.Contains(x, y)
  {
    if region.Has(x, y)
    then src.Contains(x + shiftX, y + shiftY)
         && now.At(x, y) == f(src.At(x + shiftX, y + shiftY), before.At(x, y))
    else now.At(x, y) == before.At(x, y)
  }

  /** The source rectangle that goes with a region. */
  function SourceOf(src: Surface, rectSource: Option<Rect>, rectDest: Option<Rect>, region: Rect): Rect
    reads src
  {
    region.(x := region.x + ShiftX(src, rectSource, rectDest), y := region.y + ShiftY(src, rectSource, rectDest))
  }

  /** The four tests of Blit against the extra clip rectangle. */
  method CutTo(clip: Rect, s0: Rect, d0: Rect) returns (s: Rect, d: Rect)
    requires s0.w == d0.w && s0.h == d0.h
    ensures d == Meet(d0, clip)
    ensures s == Rect(s0.x + (d.x - d0.x), s0.y + (d.y - d0.y), d.w, d.h)
  {
    s, d := s0, d0;
    var cut := clip.x - d.x;
    if cut > 0 {
      d := Rect(d.x + cut, d.y, d.w - cut, d.h);
      s := Rect(s.x + cut, s.y, s.w - cut, s.h);
    }
    cut := d.x + d.w - (clip.x + clip.w);
    if cut > 0 {
      d := d.(w := d.w - cut);
      s := s.(w := s.w - cut);
    }
    cut := clip.y - d.y;
    if cut > 0 {
      d := Rect(d.x, d.y + cut, d.w, d.h - cut);
      s := Rect(s.x, s.y + cut, s.w, s.h - cut);
    }
    cut := d.y + d.h - (clip.y + clip.h);
    if cut > 0 {
      d := d.(h := d.h - cut);
      s := s.(h := s.h - cut);
    }
  }

  /** The part of a region that lies on the destination surface. */
  function Shown(region: Rect, dst: Surface): Rect
    reads dst
  {
    Meet(region, dst.Bounds())
  }

  lemma RegionFits(src: Surface, rectSource: Option<Rect>, dst: Surface, rectDest: Option<Rect>, destClip: Option<Rect>)
    requires dst.clip.x >= 0 && dst.clip.y >= 0
    ensures var region := Region(src, rectSource, dst, rectDest, destClip);
            var shown := Shown(region, dst);
            var s := SourceOf(src, rectSource, rectDest, region);
            && region.x >= 0 && region.y >= 0
            && shown.x == region.x && shown.y == region.y && shown.w <= region.w && shown.h <= region.h
            && s.x >= 0 && s.y >= 0 && s.Inside(src.Bounds()) && shown.Inside(dst.Bounds())
            && (dst.ClipFits() && !region.Empty() ==> shown == region)
  {
  }

  /** The rectangles Blit hands on: both cut by everything there is to cut by,
      only the destination cut once more by the destination surface. */
  method CutRects(src: Surface, rectSource: Option<Rect>, dst: Surface, rectDest: Option<Rect>, destClip: Option<Rect>)
    returns (draw: bool, s: Rect, d: Rect)
    requires src.width >= 0 && src.height >= 0 && dst.width >= 0 && dst.height >= 0
    ensures var region := Region(src, rectSource, dst, rectDest, destClip);
            && (draw <==> !Shown(region, dst).Empty())
            && (draw ==> d == Shown(region, dst) && s == SourceOf(src, rectSource, rectDest, region))
  {
    hide Available, ShiftX, ShiftY, Meet;
    draw, s, d := ClipForBlit(src, rectSource, dst, rectDest);
    ghost var visible := Meet(Available(src, rectSource, rectDest), dst.clip.Value());
    if destClip.Some? {
      if visible.Empty() {
        MeetOfEmpty(visible, destClip.value);
      }
    }
    if draw && destClip.Some? {
      s, d := CutTo(destClip.value, s, d);
      draw := s.w > 0 && s.h > 0;
    }
    ghost var region := Region(src, rectSource, dst, rectDest, destClip);
    if region.Empty() {
      MeetOfEmpty(region, dst.Bounds());
    }
    if draw {
      var surfaceRect := new RectVar(dst.Bounds());
      var destRect := new RectVar(d);
      surfaceRect.ConstrainRect(destRect);
      d := destRect.Value();
      draw := d.w > 0 && d.h > 0;
    }
  }

  /** Clips, then runs the kernel on what is left inside the destination. With a
      clip rectangle inside the destination this is the blit one asks for. */
  method Blit(src: Surface, rectSource: Option<Rect>, dst: Surface, rectDest: Option<Rect>,
              destClip: Option<Rect>, additive: bool)
    returns (result: int)
    requires src.Valid() && dst.Valid() && src != dst && src.data != dst.data
    requires dst.clip.x >= 0 && dst.clip.y >= 0
    modifies src`blitDest, src`blitKernel, dst.data
    ensures result == 0 && src.Valid() && dst.Valid()
    ensures var region := old(Region(src, rectSource, dst, rectDest, destClip));
            if Shown(region, dst).Empty() then dst.Content() == old(dst.Content())
            else Drawn(old(BlitJob(src, dst, additive)).Function(), src.Content(),
                       SourceOf(src, rectSource, rectDest, region),
                       old(dst.Content()), dst.Content(), Shown(region, dst))
    ensures EffectiveKernel(src, dst) == old(EffectiveKernel(src, dst))
    ensures dst.ClipFits() ==>
      Blitted(old(BlitJob(src, dst, additive)).Function(), src.Content(),
              ShiftX(src, rectSource, rectDest), ShiftY(src, rectSource, rectDest),
              old(dst.Content()), dst.Content(), old(Region(src, rectSource, dst, rectDest, destClip)))
  {
    hide Meet, Region, Available, BlitJob, Drawn, Blitted;
    ghost var f := BlitJob(src, dst, additive).Function();
    ghost var before := dst.Content();
    ghost var region := Region(src, rectSource, dst, rectDest, destClip);
    ghost var shiftX, shiftY := ShiftX(src, rectSource, rectDest), ShiftY(src, rectSource, rectDest);
    RegionFits(src, rectSource, dst, rectDest, destClip);
    var draw, s, d := CutRects(src, rectSource, dst, rectDest, destClip);
    result := 0;
    if draw {
      result := BlitNoClip(src, s, dst, d, additive);
      DrawnStraight(f, src.Content(), s, before, dst.Content(), d, region, shiftX, shiftY);
    } else {
      NothingBlitted(f, src.Content(), shiftX, shiftY, before, region, Shown(region, dst));
    }
  }

  /** A blit that does not blend, between surfaces of one 32-bit format, with the
      kernel chosen for them. */
  predicate Copies(src: Surface, dst: Surface)
    reads src, dst
  {
    && EffectiveKernel(src, dst) == SelectKernel(src.format, src.alphaDisabled, dst.format, src == dst)
    && src.format == WithAlpha(src.format.kind, src.format.surfaceAlpha) && Is32Bit(src.format.kind)
    && dst.format == WithAlpha(src.format.kind, dst.format.surfaceAlpha)
    && !Blends(src.format.kind, src.format.surfaceAlpha, src.alphaDisabled)
  }

  /** The pixels of a region are those of the source. */
  ghost predicate CopiedPixels(src: Image, shiftX: int, shiftY: int, now: Image, region: Rect) {
    src.Valid() && now.Valid()
    && forall x, y :: now.Contains(x, y) && region.Has(x, y) ==>
         src.Contains(x + shiftX, y + shiftY) && now.At(x, y) == src.At(x + shiftX, y + shiftY)
  }

  lemma BlittedIsCopied(job: Job, from: FormatType, alpha: Byte, disabled: bool, beta: Byte, same: bool,
                        src: Image, shiftX: int, shiftY: int, before: Image, now: Image, region: Rect)
    requires Is32Bit(from) && !Blends(from, alpha, disabled) && src.Valid() && before.Valid() && now.Valid()
    requires var sf, df := WithAlpha(from, alpha), WithAlpha(from, beta);
             job == Job(SelectKernel(sf, disabled, df, same), sf, df, job.additive)
    requires Blitted(job.Function(), src, shiftX, shiftY, before, now, region)
    ensures CopiedPixels(src, shiftX, shiftY, now, region)
  {
    hide SelectKernel;
    forall x, y | now.Contains(x, y) && region.Has(x, y)
      ensures src.Contains(x + shiftX, y + shiftY) && now.At(x, y) == src.At(x + shiftX, y + shiftY)
    {
      assert PixelBlitted(job.Function(), src, shiftX, shiftY, before, now, region, x, y);
      EqualFormatsCopy(from, alpha, disabled, beta, same, job.additive,
                       src.At(x + shiftX, y + shiftY), before.At(x, y));
    }
  }

  /** Blit between surfaces of equal formats without blending: afterwards the
      region shows the source, bit by bit. */
  method BlitCopying(src: Surface, rectSource: Option<Rect>, dst: Surface, rectDest: Option<Rect>,
                     destClip: Option<Rect>, additive: bool)
    returns (result: int)
    requires src.Valid() && dst.Valid() && src != dst && src.data != dst.data
    requires dst.ClipFits() && Copies(src, dst)
    modifies src`blitDest, src`blitKernel, dst.data
    ensures result == 0 && src.Valid() && dst.Valid()
    ensures CopiedPixels(src.Content(), ShiftX(src, rectSource, rectDest), ShiftY(src, rectSource, rectDest),
                         dst.Content(), old(Region(src, rectSource, dst, rectDest, destClip)))
  {
    hide Region, CopiedPixels, SelectKernel, Blitted, Drawn, Meet;
    ghost var job, before := BlitJob(src, dst, additive), dst.Content();
    ghost var region := Region(src, rectSource, dst, rectDest, destClip);
    result := Blit(src, rectSource, dst, rectDest, destClip, additive);
    BlittedIsCopied(job, src.format.kind, src.format.surfaceAlpha, src.alphaDisabled, dst.format.surfaceAlpha,
                    src == dst, src.Content(), ShiftX(src, rectSource, rectDest), ShiftY(src, rectSource, rectDest),
                    before, dst.Content(), region);
  }

  lemma NothingBlitted(f: PixelFunction, src: Image, shiftX: int, shiftY: int, image: Image, region: Rect, shown: Rect)
    requires src.Valid() && image.Valid() && shown == Meet(region, image.Bounds()) && shown.Empty()
    ensures Blitted(f, src, shiftX, shiftY, image, image, region)
  {
    forall x, y | image.Contains(x, y)
      ensures !region.Has(x, y)
    {
      MeetHas(region, image.Bounds(), x, y);
    }
  }

  lemma NoSkew(src: Image, s: Rect, d: Rect, x: int, y: int)
    requires d.w == s.w
    ensures ReadIndex(src, s, d, x, y) == src.Index(x - d.x + s.x, y - d.y + s.y)
  {
  }

  /** With no columns cut off at the surface's edge the row loop reads the pixel
      at the fixed offset. */
  lemma DrawnStraight(f: PixelFunction, src: Image, s: Rect, before: Image, now: Image, d: Rect, region: Rect,
                      shiftX: int, shiftY: int)
    requires src.Valid() && before.Valid() && Drawn(f, src, s, before, now, d)
    requires s == Rect(region.x + shiftX, region.y + shiftY, region.w, region.h)
    requires s.x >= 0 && s.y >= 0 && s.Inside(src.Bounds())
    requires d == Meet(region, before.Bounds()) && d.x == region.x && d.y == region.y
    ensures d.w == region.w ==> Blitted(f, src, shiftX, shiftY, before, now, region)
  {
    if d.w == region.w {
      forall x, y | now.Contains(x, y)
        ensures PixelBlitted(f, src, shiftX, shiftY, before, now, region, x, y)
      {
        hide ReadIndex;
        assert PixelDrawn(f, src, s, before, now, d, x, y);
        assert region.Has(x, y) <==> d.Has(x, y);
        if d.Has(x, y) {
          NoSkew(src, s, d, x, y);
        }
      }
    }
  }

  /** Exactly when every pixel is read at the fixed offset: no columns were cut
      off at the right edge of the surface, or only one row is drawn. */
  lemma ReadsStraight(src: Image, s: Rect, d: Rect)
    requires d.w > 0 && d.h > 0 && d.w <= s.w
    ensures (forall x, y :: d.Has(x, y) ==> ReadIndex(src, s, d, x, y) == src.Index(x - d.x + s.x, y - d.y + s.y))
       <==> d.w == s.w || d.h == 1
  {
    if d.w != s.w && d.h > 1 {
      assert d.Has(d.x, d.y + 1);
      assert ReadIndex(src, s, d, d.x, d.y + 1) != src.Index(s.x, s.y + 1);
    } else {
      forall x, y | d.Has(x, y)
        ensures ReadIndex(src, s, d, x, y) == src.Index(x - d.x + s.x, y - d.y + s.y)
      {
        if d.w == s.w {
          NoSkew(src, s, d, x, y);
        }
      }
    }
  }

  /** A new surface has not been given a clip rectangle inside itself yet. Onto
      such a surface of width 1 the second row of a 2x2 source is read one pixel
      too early, at the end of the first row. */
  lemma UnclippedDestinationReadsAskew(src: Surface, dst: Surface)
    requires src.width == 2 && src.height == 2 && src.stride == 8
    requires dst.width == 1 && dst.height == 2
    requires dst.clip.Value() == Rect(0, 0, INT_MAX, INT_MAX)
    ensures var region := Region(src, None, dst, None, None);
            && !Shown(region, dst).Empty()
            && ReadIndex(src.Content(), SourceOf(src, None, None, region), Shown(region, dst), 0, 1)
               == src.Content().Index(1, 0)
  {
    assert Available(src, None, None) == Rect(0, 0, 2, 2);
    assert Region(src, None, dst, None, None) == Rect(0, 0, 2, 2);
  }
}
