/** A 32-bit pixel surface: a flat pixel array read row by row through a stride,
    a clip rectangle, and the cached choice of blit kernel. */
module Surfaces {
  import opened Arithmetic
  import opened Words
  import opened PixelFormats
  import opened Kernels
  import opened Rects

  /** The largest value of the source's int type. */
  const INT_MAX := 0x7fff_ffff

  /** What a surface shows: its size and its pixel memory at one moment. */
  datatype Image = Image(width: int, height: int, pitch: int, data: seq<Word>) {
    predicate Valid() {
      0 <= width <= pitch && 0 <= height && height * pitch <= |data|
    }

    predicate Contains(x: int, y: int) {
      0 <= x < width && 0 <= y < height
    }

    function Bounds(): Rect {
      Rect(0, 0, width, height)
    }

    function Index(x: int, y: int): int {
      y * pitch + x
    }

    function At(x: int, y: int): Word
      requires Valid() && Contains(x, y)
    {
      IndexInData(x, y);
      data[Index(x, y)]
    }

    lemma IndexInData(x: int, y: int)
      requires Valid() && Contains(x, y)
      ensures 0 <= Index(x, y) < |data|
    {
      RowFits(0, pitch, y, height, pitch, height * pitch);
    }

    /** Whether an index belongs to a pixel and not to the padding of a row or
        the end of the buffer. */
    predicate IsPixelIndex(i: int) {
      pitch > 0 && i % pitch < width && i / pitch < height
    }

    predicate SameShape(other: Image) {
      width == other.width && height == other.height && pitch == other.pitch && |data| == |other.data|
    }
  }

  class Surface {
    var format: PixelFormat
    var alphaDisabled: bool
    var data: array<Word>
    var width: int
    var height: int
    var stride: int  // in bytes
    const clip: RectVar
    var blitDest: Surface?
    var blitKernel: Option<Kernel>

    function Content(): Image
      reads this, data
    {
      Image(width, height, stride / 4, data[..])
    }

    predicate Valid()
      reads this, data
    {
      format.bytesPerPixel == 4 && stride % 4 == 0 && Content().Valid()
    }

    /** The whole surface as a rectangle. */
    function Bounds(): Rect
      reads this
    {
      Rect(0, 0, width, height)
    }

    predicate Contains(x: int, y: int)
      reads this
    {
      0 <= x < width && 0 <= y < height
    }

    /** A new surface draws everywhere: its clip rectangle is not yet cut to its size. */
    constructor (kind: FormatType, w: nat, h: nat)
      requires FormatOf(kind).bytesPerPixel == 4
      ensures Valid() && fresh(data) && fresh(clip)
      ensures width == w && height == h && stride == 4 * w && format == FormatOf(kind)
      ensures clip.Value() == Rect(0, 0, INT_MAX, INT_MAX)
      ensures blitDest == null && blitKernel.None? && !alphaDisabled
    {
      format := FormatOf(kind);
      alphaDisabled := false;
      width, height, stride := w, h, 4 * w;
      data := new Word[w * h](_ => NO_BITS);
      clip := new RectVar(Rect(0, 0, INT_MAX, INT_MAX));
      blitDest, blitKernel := null, None;
      new;
      assert stride / 4 == w;
    }

    method SetClipRect(rect: RectVar?)
      requires Valid()
      modifies clip
      ensures forall x, y :: clip.Value().Has(x, y) <==>
        Contains(x, y) && (rect != null ==> old(rect.Value()).Has(x, y))
      ensures ClipFits()
    {
      var full := new RectVar(Bounds());
      if rect != null {
        forall x, y {
          MeetHas(rect.Value(), full.Value(), x, y);
        }
        var some := IntersectRect(rect, full, clip);
      } else {
        clip.x, clip.y, clip.w, clip.h := 0, 0, width, height;
      }
    }

    /** The clip rectangle admits no pixel outside the surface. */
    predicate ClipFits()
      reads this, clip
    {
      && 0 <= clip.x && 0 <= clip.y && 0 <= clip.w && 0 <= clip.h
      && (clip.w > 0 && clip.h > 0 ==> clip.x + clip.w <= width && clip.y + clip.h <= height)
    }
  }
}
