/** The pixel formats of a surface: which bits of a word hold which channel. */
module PixelFormats {
  import opened Words

  datatype FormatType = ARGB | RGBA | XRGB | RGBX | RGB

  datatype PixelFormat = PixelFormat(
    kind: FormatType, bytesPerPixel: nat, surfaceAlpha: Byte,
    rMask: Lanes, gMask: Lanes, bMask: Lanes, aMask: Lanes,
    rShift: nat, gShift: nat, bShift: nat, aShift: nat)
  {
    predicate HasAlpha() {
      aMask != NO_LANES
    }
  }

  /** What Surface::SetPixelFormat stores for each format type. */
  function FormatOf(kind: FormatType): PixelFormat {
    match kind
    case ARGB => PixelFormat(kind, 4, 255, LANE_2, LANE_1, LANE_0, LANE_3, 16, 8, 0, 24)
    case RGBA => PixelFormat(kind, 4, 255, LANE_3, LANE_2, LANE_1, LANE_0, 24, 16, 8, 0)
    case XRGB => PixelFormat(kind, 4, 255, LANE_2, LANE_1, LANE_0, NO_LANES, 16, 8, 0, 24)
    case RGBX => PixelFormat(kind, 4, 255, LANE_3, LANE_2, LANE_1, NO_LANES, 24, 16, 8, 0)
    case RGB => PixelFormat(kind, 3, 255, LANE_3, LANE_2, LANE_1, NO_LANES, 24, 16, 8, 0)
  }

  datatype Channels = Channels(r: Word, g: Word, b: Word, a: Word)

  /** RGBA_FROM_PIXEL. */
  function FromPixel(f: PixelFormat, pixel: Word): Channels {
    Channels(Shr(And(pixel, f.rMask), f.rShift), Shr(And(pixel, f.gMask), f.gShift),
             Shr(And(pixel, f.bMask), f.bShift), Shr(And(pixel, f.aMask), f.aShift))
  }

  /** PIXEL_FROM_RGBA: the four channels are or-ed together, so one that is
      wider than its lane spills into the lanes above it. */
  function ToPixel(f: PixelFormat, c: Channels): Word {
    Or(Or(Or(Shl(c.r, f.rShift), Shl(c.g, f.gShift)), Shl(c.b, f.bShift)), Shl(c.a, f.aShift))
  }

  /** A format whose colour lanes are those of ARGB; its alpha mask is the top
      lane (ARGB) or empty (XRGB). */
  predicate IsArgbLayout(f: PixelFormat) {
    && f.rMask == LANE_2 && f.gMask == LANE_1 && f.bMask == LANE_0
    && f.rShift == 16 && f.gShift == 8 && f.bShift == 0 && f.aShift == 24
    && f.aMask in {NO_LANES, LANE_3}
  }

  lemma ArgbLayouts(kind: FormatType)
    ensures IsArgbLayout(FormatOf(kind)) <==> kind.ARGB? || kind.XRGB?
  {
  }

  lemma FromArgbPixel(f: PixelFormat, p: Word)
    requires IsArgbLayout(f)
    ensures FromPixel(f, p) == Channels(Low(p.r), Low(p.g), Low(p.b), Low(if f.HasAlpha() then p.a else 0))
  {
  }

  lemma ToArgbPixel(f: PixelFormat, c: Channels)
    requires IsArgbLayout(f)
    requires forall w | w in {c.r, c.g, c.a} :: w.r == w.g == 0
    requires c.b.r == c.b.g == 0
    ensures ToPixel(f, c) == Word(OrByte(c.b.a, c.a.b), c.r.b, c.g.b, c.b.b)
  {
  }
}
