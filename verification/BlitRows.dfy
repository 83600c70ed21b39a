/** The loops every blit function consists of: an unrolled loop over a row,
    inside a loop over rows that advances two pointers by their skips. Pointers
    are indices into the pixel arrays. */
module BlitRows {
  import opened Arithmetic
  import opened Words
  import opened PixelFormats
  import opened Kernels

  type PairFunction = (Word, Word, Word, Word) -> (Word, Word)

  /** A kernel together with everything its pixel code depends on. */
  datatype Job = Job(kernel: Kernel, sf: PixelFormat, df: PixelFormat, additive: bool) {
    function Function(): PixelFunction {
      KernelFunction(kernel, sf, df, additive)
    }

    /** The two-pixel body of the surface-alpha kernel. */
    function Pair(): PairFunction {
      (s0, s1, d0, d1) => TwoPixelBlend(sf.surfaceAlpha, s0, s1, d0, d1)
    }

    lemma PairIsTwoPixels()
      requires kernel == FastSurfaceAlpha && !additive
      ensures forall s0, s1, d0, d1 :: Pair()(s0, s1, d0, d1) == (Function()(s0, d0), Function()(s1, d1))
    {
      forall s0, s1, d0, d1
        ensures Pair()(s0, s1, d0, d1) == (Function()(s0, d0), Function()(s1, d1))
      {
        TwoPixelsAreTwiceOne(sf.surfaceAlpha, s0, s1, d0, d1);
        KernelIsFastSurface(sf, df, s0, d0);
        KernelIsFastSurface(sf, df, s1, d1);
      }
    }
  }

  /** How often an unrolled loop runs its body: it is entered in the middle to
      get the remainder right, and a width of zero still costs a full round. */
  function DuffCount(width: nat, unroll: nat): nat {
    if width == 0 then unroll else width
  }

  /** What a row loop leaves behind: count pixels from dp on went through f. */
  ghost predicate RowDone(f: PixelFunction, src: seq<Word>, sp: nat, before: seq<Word>, now: seq<Word>,
                          dp: nat, count: nat)
    requires sp + count <= |src|
  {
    && |now| == |before|
    && forall i :: 0 <= i < |now| ==>
         now[i] == if dp <= i < dp + count then f(src[sp + i - dp], before[i]) else before[i]
  }

  /** The loop body count times: the cases of the switch that are run through. */
  method FallThrough(f: PixelFunction, src: array<Word>, sp: nat, dst: array<Word>, dp: nat, count: nat)
    requires src != dst && sp + count <= src.Length && dp + count <= dst.Length
    modifies dst
    ensures RowDone(f, src[..], sp, old(dst[..]), dst[..], dp, count)
  {
    for done := 0 to count
      invariant RowDone(f, src[..], sp, old(dst[..]), dst[..], dp, done)
    {
      dst[dp + done] := f(src[sp + done], dst[dp + done]);
    }
  }

  /** DUFFS_LOOP4 and DUFFS_LOOP8. */
  method DuffRow(f: PixelFunction, unroll: nat, src: array<Word>, sp: nat, dst: array<Word>, dp: nat, width: nat)
    requires unroll == 4 || unroll == 8
    requires src != dst
    requires sp + DuffCount(width, unroll) <= src.Length && dp + DuffCount(width, unroll) <= dst.Length
    modifies dst
    ensures RowDone(f, src[..], sp, old(dst[..]), dst[..], dp, DuffCount(width, unroll))
  {
    var n := (width + unroll - 1) / unroll;
    var entry := if width % unroll == 0 then unroll else width % unroll;
    var done := 0;
    var again := true;
    DuffEntry(width, unroll);
    while again
      invariant 0 <= unroll * Rounds(n) && 0 <= entry && 0 <= done <= DuffCount(width, unroll)
      invariant done + (if again then entry + unroll * Rounds(n) else 0) == DuffCount(width, unroll)
      invariant RowDone(f, src[..], sp, old(dst[..]), dst[..], dp, done)
      decreases again, n
    {
      FallThrough(f, src, sp + done, dst, dp + done, entry);
      done := done + entry;
      entry := unroll;
      n := n - 1;
      again := n > 0;
      assert unroll * Rounds(n + 1) == if again then unroll + unroll * Rounds(n) else 0;
    }
  }

  /** Full rounds still to come after the one that is about to run. */
  function Rounds(n: int): nat {
    if n > 1 then n - 1 else 0
  }

  lemma DuffEntry(width: nat, unroll: nat)
    requires unroll == 4 || unroll == 8
    ensures var entry := if width % unroll == 0 then unroll else width % unroll;
            entry + unroll * Rounds((width + unroll - 1) / unroll) == DuffCount(width, unroll)
  {
    var q := width / unroll;
    if unroll == 4 {
      assert (width + 3) / 4 == if width % 4 == 0 then q else q + 1;
    } else {
      assert (width + 7) / 8 == if width % 8 == 0 then q else q + 1;
    }
  }

  method StorePair(f: PixelFunction, g: PairFunction, src: array<Word>, p: nat, dst: array<Word>, q: nat)
    requires forall s0, s1, d0, d1 :: g(s0, s1, d0, d1) == (f(s0, d0), f(s1, d1))
    requires src != dst && p + 2 <= src.Length && q + 2 <= dst.Length
    modifies dst
    ensures RowDone(f, src[..], p, old(dst[..]), dst[..], q, 2)
  {
    var pair := g(src[p], src[p + 1], dst[q], dst[q + 1]);
    dst[q] := pair.0;
    dst[q + 1] := pair.1;
  }

  /** DUFFS_LOOP_DOUBLE2: one odd pixel first, then pairs. g is the two-pixel
      body; it has to do to each of its pixels what f does. */
  method DoubleRow(f: PixelFunction, g: PairFunction, src: array<Word>, sp: nat, dst: array<Word>, dp: nat, width: nat)
    requires forall s0, s1, d0, d1 :: g(s0, s1, d0, d1) == (f(s0, d0), f(s1, d1))
    requires src != dst && sp + width <= src.Length && dp + width <= dst.Length
    modifies dst
    ensures RowDone(f, src[..], sp, old(dst[..]), dst[..], dp, width)
  {
    var done, w := 0, width;
    if w % 2 == 1 {
      dst[dp] := f(src[sp], dst[dp]);
      done := 1;
      w := w - 1;
    }
    if w > 0 {
      PairRounds(f, g, src, sp + done, dst, dp + done, w);
    }
  }

  /** count pairs in a row: the cases of the switch that are run through. */
  method PairRun(f: PixelFunction, g: PairFunction, src: array<Word>, sp: nat, dst: array<Word>, dp: nat, count: nat)
    requires forall s0, s1, d0, d1 :: g(s0, s1, d0, d1) == (f(s0, d0), f(s1, d1))
    requires src != dst && sp + 2 * count <= src.Length && dp + 2 * count <= dst.Length
    modifies dst
    ensures RowDone(f, src[..], sp, old(dst[..]), dst[..], dp, 2 * count)
  {
    var entry := count;
    while entry > 0
      invariant 0 <= entry <= count
      invariant RowDone(f, src[..], sp, old(dst[..]), dst[..], dp, 2 * (count - entry))
    {
      var done := 2 * (count - entry);
      StorePair(f, g, src, sp + done, dst, dp + done);
      entry := entry - 1;
    }
  }

  /** The unrolled part of DUFFS_LOOP_DOUBLE2: w pixels, two pairs a round. */
  method PairRounds(f: PixelFunction, g: PairFunction, src: array<Word>, sp: nat, dst: array<Word>, dp: nat, w: nat)
    requires forall s0, s1, d0, d1 :: g(s0, s1, d0, d1) == (f(s0, d0), f(s1, d1))
    requires w > 0 && w % 2 == 0
    requires src != dst && sp + w <= src.Length && dp + w <= dst.Length
    modifies dst
    ensures RowDone(f, src[..], sp, old(dst[..]), dst[..], dp, w)
  {
    var n := (w + 2) / 4;
    var entry := if w % 4 == 0 then 2 else 1;
    var done := 0;
    var again := true;
    while again
      invariant n > 0 || !again
      invariant 0 <= done && 0 <= entry && done + (if again then 2 * entry + 4 * (n - 1) else 0) == w
      invariant RowDone(f, src[..], sp, old(dst[..]), dst[..], dp, done)
      decreases again, n
    {
      PairRun(f, g, src, sp + done, dst, dp + done, entry);
      done := done + 2 * entry;
      entry := 2;
      n := n - 1;
      again := n > 0;
    }
  }

  /** One row through the loop form its kernel is written with. */
  method BlitRow(job: Job, src: array<Word>, sp: nat, dst: array<Word>, dp: nat, width: nat)
    requires src != dst && width > 0 && sp + width <= src.Length && dp + width <= dst.Length
    modifies dst
    ensures RowDone(job.Function(), src[..], sp, old(dst[..]), dst[..], dp, width)
  {
    var f := job.Function();
    match job.kernel
    case MaskAlpha => DuffRow(f, 8, src, sp, dst, dp, width);
    case NtoN => DuffRow(f, 8, src, sp, dst, dp, width);
    case FastSurfaceAlpha =>
      if job.additive {
        DuffRow(f, 4, src, sp, dst, dp, width);
      } else {
        job.PairIsTwoPixels();
        DoubleRow(f, job.Pair(), src, sp, dst, dp, width);
      }
    case FastPixelAlpha => DuffRow(f, 4, src, sp, dst, dp, width);
    case NtoNSurfaceAlpha => DuffRow(f, 4, src, sp, dst, dp, width);
    case NtoNPixelAlpha => DuffRow(f, 4, src, sp, dst, dp, width);
    case _ => FallThrough(f, src, sp, dst, dp, width);  // a plain loop, or memcpy
  }

  // ----- rows -----

  /** The indices of a block of rows that start pitch apart. */
  predicate InBlock(i: int, start: int, pitch: nat, width: nat, height: nat)
    requires pitch > 0
  {
    start <= i && (i - start) / pitch < height && (i - start) % pitch < width
  }

  /** Where a kernel reads for index i of a block that starts at dp: the source
      rows start step apart. */
  function SourceIndex(i: int, dp: int, pitch: nat, sp: int, step: nat): int
    requires pitch > 0
  {
    sp + (i - dp) / pitch * step + (i - dp) % pitch
  }

  lemma BlockGrows(i: int, start: int, pitch: nat, width: nat, rows: nat)
    requires 0 < width <= pitch
    ensures var q := start + rows * pitch;
            InBlock(i, start, pitch, width, rows + 1) <==>
              InBlock(i, start, pitch, width, rows) || q <= i < q + width
  {
    var q := start + rows * pitch;
    if q <= i < q + width {
      RowColumn(pitch, rows, i - q);
    } else if start <= i && (i - start) / pitch == rows {
      assert i - start == rows * pitch + (i - start) % pitch;
    }
  }

  lemma InRow(i: int, start: int, pitch: nat, width: nat, rows: nat)
    requires 0 < width <= pitch
    requires var q := start + rows * pitch; q <= i < q + width
    ensures !InBlock(i, start, pitch, width, rows)
    ensures (i - start) / pitch == rows && (i - start) % pitch == i - (start + rows * pitch)
  {
    RowColumn(pitch, rows, i - (start + rows * pitch));
  }

  /** What the loop over rows leaves behind: every index of the block went
      through f with the source pixel of its row and column. */
  ghost predicate BlockDone(f: PixelFunction, src: seq<Word>, sp: nat, step: nat,
                            before: seq<Word>, now: seq<Word>, dp: nat, pitch: nat, width: nat, height: nat)
    requires pitch > 0
  {
    && |now| == |before|
    && forall i :: 0 <= i < |now| ==>
         if InBlock(i, dp, pitch, width, height)
         then 0 <= SourceIndex(i, dp, pitch, sp, step) < |src|
              && now[i] == f(src[SourceIndex(i, dp, pitch, sp, step)], before[i])
         else now[i] == before[i]
  }

  lemma BlockStep(f: PixelFunction, src: seq<Word>, sp: nat, step: nat,
                  before: seq<Word>, mid: seq<Word>, now: seq<Word>, dp: nat, pitch: nat, width: nat, row: nat)
    requires 0 < width <= pitch && 0 <= row * step && 0 <= row * pitch
    requires sp + row * step + width <= |src|
    requires BlockDone(f, src, sp, step, before, mid, dp, pitch, width, row)
    requires RowDone(f, src, sp + row * step, mid, now, dp + row * pitch, width)
    ensures BlockDone(f, src, sp, step, before, now, dp, pitch, width, row + 1)
  {
    var q := dp + row * pitch;
    forall i | 0 <= i < |now|
      ensures if InBlock(i, dp, pitch, width, row + 1)
              then 0 <= SourceIndex(i, dp, pitch, sp, step) < |src|
                   && now[i] == f(src[SourceIndex(i, dp, pitch, sp, step)], before[i])
              else now[i] == before[i]
    {
      BlockGrows(i, dp, pitch, width, row);
      if q <= i < q + width {
        InRow(i, dp, pitch, width, row);
      }
    }
  }

  lemma BlockEmpty(f: PixelFunction, src: seq<Word>, sp: nat, step: nat, before: seq<Word>,
                   dp: nat, pitch: nat, width: nat)
    requires pitch > 0
    ensures BlockDone(f, src, sp, step, before, before, dp, pitch, width, 0)
  {
  }

  /** The loop over rows of every blit function: after each row both pointers
      skip to the start of the next one. */
  method BlitBlock(job: Job, src: array<Word>, sp: nat, srcSkip: int, dst: array<Word>, dp: nat, dstSkip: int,
                   width: nat, height: nat)
    requires src != dst && width > 0 && height > 0 && 0 <= width + srcSkip && 0 <= dstSkip
    requires sp + (height - 1) * (width + srcSkip) + width <= src.Length
    requires dp + (height - 1) * (width + dstSkip) + width <= dst.Length
    modifies dst
    ensures BlockDone(job.Function(), src[..], sp, width + srcSkip, old(dst[..]), dst[..],
                      dp, width + dstSkip, width, height)
  {
    hide RowDone, BlockDone, InBlock;
    var pitch, step := width + dstSkip, width + srcSkip;
    var row := 0;
    var p, q := sp, dp;
    BlockEmpty(job.Function(), src[..], sp, step, dst[..], dp, pitch, width);
    while row < height
      invariant row <= height && p == sp + row * step && q == dp + row * pitch
      invariant BlockDone(job.Function(), src[..], sp, step, old(dst[..]), dst[..], dp, pitch, width, row)
    {
      RowFits(sp, step, row, height, width, src.Length);
      RowFits(dp, pitch, row, height, width, dst.Length);
      ghost var mid := dst[..];
      BlitRow(job, src, p, dst, q, width);
      BlockStep(job.Function(), src[..], sp, step, old(dst[..]), mid, dst[..], dp, pitch, width, row);
      Distribute(row, 1, step);
      Distribute(row, 1, pitch);
      p, q := p + width + srcSkip, q + width + dstSkip;
      row := row + 1;
    }
  }
}
