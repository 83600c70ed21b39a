/** The fast blitters against the general ones over whole rectangles. */
module Refinement {
  import opened Words
  import opened PixelFormats
  import opened Kernels
  import opened BlitRows

  /** ARGB over ARGB with per-pixel alpha: run both kernels over the same block.
      Additively the results are the same memory. Normally the alphas the fast
      kernel leaves are those it found, and the colours differ by at most one,
      and not at all under a source pixel that is not opaque. */
  lemma PixelAlphaBlitters(sf: PixelFormat, df: PixelFormat, additive: bool,
                           src: seq<Word>, sp: nat, step: nat, before: seq<Word>, fast: seq<Word>, slow: seq<Word>,
                           dp: nat, pitch: nat, width: nat, height: nat)
    requires IsArgbLayout(sf) && sf.HasAlpha() && IsArgbLayout(df) && df.HasAlpha() && pitch > 0
    requires BlockDone(Job(FastPixelAlpha, sf, df, additive).Function(), src, sp, step, before, fast,
                       dp, pitch, width, height)
    requires BlockDone(Job(NtoNPixelAlpha, sf, df, additive).Function(), src, sp, step, before, slow,
                       dp, pitch, width, height)
    ensures additive ==> fast == slow
    ensures forall i :: 0 <= i < |fast| ==>
      Near(fast[i].r, slow[i].r) && Near(fast[i].g, slow[i].g) && Near(fast[i].b, slow[i].b)
    ensures forall i :: 0 <= i < |fast| && InBlock(i, dp, pitch, width, height) ==>
      src[SourceIndex(i, dp, pitch, sp, step)].a < 255 ==>
        fast[i].r == slow[i].r && fast[i].g == slow[i].g && fast[i].b == slow[i].b
    ensures forall i :: 0 <= i < |fast| && before[i].a != 0 ==> fast[i].a == before[i].a
  {
    hide InBlock, SourceIndex;
    forall i | 0 <= i < |fast|
      ensures additive ==> fast[i] == slow[i]
      ensures Near(fast[i].r, slow[i].r) && Near(fast[i].g, slow[i].g) && Near(fast[i].b, slow[i].b)
      ensures InBlock(i, dp, pitch, width, height) && src[SourceIndex(i, dp, pitch, sp, step)].a < 255 ==>
        fast[i].r == slow[i].r && fast[i].g == slow[i].g && fast[i].b == slow[i].b
      ensures before[i].a != 0 ==> fast[i].a == before[i].a
    {
      if InBlock(i, dp, pitch, width, height) {
        hide FastPixelAlphaPixel, NtoNPixelAlphaPixel;
        FastRefinesGeneral(sf, df, additive, src[SourceIndex(i, dp, pitch, sp, step)], before[i]);
      }
    }
  }

  predicate Near(fast: Byte, slow: Byte) {
    fast == slow || fast == slow + 1
  }

  /** XRGB over ARGB or XRGB with surface alpha: the colours agree everywhere
      while the alpha is not 0, and the fast kernel leaves every pixel opaque. */
  lemma SurfaceAlphaBlitters(sf: PixelFormat, df: PixelFormat, additive: bool,
                             src: seq<Word>, sp: nat, step: nat, before: seq<Word>, fast: seq<Word>, slow: seq<Word>,
                             dp: nat, pitch: nat, width: nat, height: nat)
    requires IsArgbLayout(sf) && IsArgbLayout(df) && pitch > 0
    requires BlockDone(Job(FastSurfaceAlpha, sf, df, additive).Function(), src, sp, step, before, fast,
                       dp, pitch, width, height)
    requires BlockDone(Job(NtoNSurfaceAlpha, sf, df, additive).Function(), src, sp, step, before, slow,
                       dp, pitch, width, height)
    ensures forall i :: 0 <= i < |fast| ==>
      if InBlock(i, dp, pitch, width, height)
      then 0 <= SourceIndex(i, dp, pitch, sp, step) < |src|
           && fast[i] == Blended(255, additive, src[SourceIndex(i, dp, pitch, sp, step)], before[i], sf.surfaceAlpha)
           && (sf.surfaceAlpha != 0 || !additive ==>
                 fast[i].r == slow[i].r && fast[i].g == slow[i].g && fast[i].b == slow[i].b)
      else fast[i] == slow[i] == before[i]
  {
    hide InBlock, SourceIndex;
    forall i | 0 <= i < |fast|
      ensures if InBlock(i, dp, pitch, width, height)
              then 0 <= SourceIndex(i, dp, pitch, sp, step) < |src|
                   && fast[i]
                        == Blended(255, additive, src[SourceIndex(i, dp, pitch, sp, step)], before[i], sf.surfaceAlpha)
                   && (sf.surfaceAlpha != 0 || !additive ==>
                         fast[i].r == slow[i].r && fast[i].g == slow[i].g && fast[i].b == slow[i].b)
              else fast[i] == slow[i] == before[i]
    {
      if InBlock(i, dp, pitch, width, height) {
        hide FastSurfaceAlphaPixel, NtoNSurfaceAlphaPixel, Blended;
        var s := src[SourceIndex(i, dp, pitch, sp, step)];
        FastSurfaceAlphaMeaning(sf.surfaceAlpha, additive, s, before[i]);
        SurfaceAlphaRefinesGeneral(sf, df, additive, s, before[i]);
      }
    }
  }
}
