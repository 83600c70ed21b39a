/** The portable blit kernels: how SetupBlitFunction picks one, what each does
    to one pixel, and how the fast ones relate to the general ones. */
module Kernels {
  import opened Words
  import opened PixelFormats
  import opened Blend

  datatype Kernel =
    | Copy | CopyOverlap | MaskAlpha | NtoN | NtoNCopyAlpha
    | FastSurfaceAlpha | FastPixelAlpha | NtoNSurfaceAlpha | NtoNPixelAlpha

  /** SetupBlitFunction without the processor-specific kernels. */
  function SelectKernel(sf: PixelFormat, alphaDisabled: bool, df: PixelFormat, sameSurface: bool): Kernel {
    var identical := sf.kind == df.kind;
    var blitAlpha := !alphaDisabled && (sf.HasAlpha() || sf.surfaceAlpha != 255);
    var sameRgb := sf.rMask == df.rMask && sf.gMask == df.gMask && sf.bMask == df.bMask;
    if !blitAlpha && identical then
      if sameSurface then CopyOverlap else Copy
    else if blitAlpha then
      if !sf.HasAlpha() then
        if df.bytesPerPixel == 4 && sameRgb && sf.bytesPerPixel == 4
           && OrLanes(OrLanes(sf.rMask, sf.gMask), sf.bMask) == LANES_210
        then FastSurfaceAlpha else NtoNSurfaceAlpha
      else if df.bytesPerPixel == 4 && sameRgb && sf.bytesPerPixel == 4 && sf.aMask == LANE_3
      then FastPixelAlpha else NtoNPixelAlpha
    else if sf.bytesPerPixel == 4 && df.bytesPerPixel == 4 && sameRgb then MaskAlpha
    else if df.HasAlpha() then NtoNCopyAlpha
    else NtoN
  }

  /** 0xff000000 where it is or-ed into a pixel. */
  const OPAQUE := Word(255, 0, 0, 0)

  // ----- one pixel of each kernel, as the code computes it -----

  function MaskAlphaPixel(sf: PixelFormat, df: PixelFormat, s: Word): Word {
    if df.HasAlpha() then Or(s, Shl(Low(df.surfaceAlpha), df.aShift))
    else And(s, OrLanes(OrLanes(sf.rMask, sf.gMask), sf.bMask))
  }

  function NtoNPixel(sf: PixelFormat, df: PixelFormat, s: Word): Word {
    var alpha := if df.kind.RGB? then NO_BITS else Low(sf.surfaceAlpha);
    ToPixel(df, FromPixel(sf, s).(a := alpha))
  }

  function NtoNCopyAlphaPixel(sf: PixelFormat, df: PixelFormat, s: Word): Word {
    ToPixel(df, FromPixel(sf, s))
  }

  /** s + (d * inverse alpha >> 8), cut off at 255. */
  function AddWord(s: Word, d: Word, inverse: Word): Word {
    Saturate(Add(s, Shr(Mul(d, inverse), 8)))
  }

  function Saturate(sum: Word): Word {
    if sum.Value() > 255 then Low(255) else sum
  }

  /** One colour channel of an ARGB-ordered word, and a word put together again. */
  function Channel(w: Word, shift: nat): Word {
    And(Shr(w, shift), LANE_0)
  }

  function Join(top: Word, r: Word, g: Word, b: Word): Word {
    Or(Or(Or(top, Shl(r, 16)), Shl(g, 8)), b)
  }

  /** The additive branch of both fast kernels. */
  function FastAdd(top: Word, s: Word, d: Word, alpha: Byte): Word {
    var inverse := Low(255 - alpha);
    Join(top,
         AddWord(Channel(s, 16), Channel(d, 16), inverse),
         AddWord(Channel(s, 8), Channel(d, 8), inverse),
         AddWord(Channel(s, 0), Channel(d, 0), inverse))
  }

  /** The normal branch of both fast kernels: red and blue together, green alone. */
  function FastBlend(top: Word, s: Word, d: Word, alpha: Byte): Word {
    var rb := And(BlendWord(And(d, LANES_20), And(s, LANES_20), Low(alpha)), LANES_20);
    var g := And(BlendWord(And(d, LANE_1), And(s, LANE_1), Low(alpha)), LANE_1);
    Or(Or(rb, g), top)
  }

  function FastSurfaceAlphaPixel(alpha: Byte, additive: bool, s: Word, d: Word): Word {
    if additive then FastAdd(OPAQUE, s, d, alpha) else FastBlend(OPAQUE, s, d, alpha)
  }

  /** The two-pixel body of the surface-alpha loop: both greens share a word. */
  function TwoPixelBlend(alpha: Byte, s0: Word, s1: Word, d0: Word, d1: Word): (Word, Word) {
    var rb0 := And(BlendWord(And(d0, LANES_20), And(s0, LANES_20), Low(alpha)), LANES_20);
    var s := Or(Shr(And(s0, LANE_1), 8), Shl(And(s1, LANE_1), 8));
    var d := Or(Shr(And(d0, LANE_1), 8), Shl(And(d1, LANE_1), 8));
    var g := And(BlendWord(d, s, Low(alpha)), LANES_20);
    var rb1 := And(BlendWord(And(d1, LANES_20), And(s1, LANES_20), Low(alpha)), LANES_20);
    (Or(Or(rb0, And(Shl(g, 8), LANE_1)), OPAQUE), Or(Or(rb1, And(Shr(g, 8), LANE_1)), OPAQUE))
  }

  function FastPixelAlphaPixel(additive: bool, s: Word, d: Word): Word {
    var top := And(d, LANE_3);
    var alpha := Shr(s, 24).b;
    if alpha == 0 then d
    else if top == NO_BITS then s
    else if alpha == 255 then Or(And(s, LANES_210), top)
    else if additive then FastAdd(top, s, d, alpha)
    else FastBlend(top, s, d, alpha)
  }

  /** ALPHA_BLEND and ADDITIVE_ALPHA_BLEND on the channels of two pixels. */
  function BlendChannels(additive: bool, s: Channels, alpha: Word, d: Channels): Channels {
    if additive then
      var inverse := Sub(Low(255), alpha);
      Channels(AddWord(s.r, d.r, inverse), AddWord(s.g, d.g, inverse), AddWord(s.b, d.b, inverse), d.a)
    else
      Channels(BlendWord(d.r, s.r, alpha), BlendWord(d.g, s.g, alpha), BlendWord(d.b, s.b, alpha), d.a)
  }

  function NtoNSurfaceAlphaPixel(sf: PixelFormat, df: PixelFormat, additive: bool, s: Word, d: Word): Word {
    if sf.surfaceAlpha == 0 then d
    else
      var c := BlendChannels(additive, FromPixel(sf, s), Low(sf.surfaceAlpha), FromPixel(df, d));
      ToPixel(df, c.(a := if df.HasAlpha() then Low(255) else NO_BITS))
  }

  function NtoNPixelAlphaPixel(sf: PixelFormat, df: PixelFormat, additive: bool, s: Word, d: Word): Word {
    var sc := FromPixel(sf, s);
    var dc := FromPixel(df, d);
    if sc.a == NO_BITS then d
    else if dc.a == NO_BITS then ToPixel(df, sc)
    else ToPixel(df, BlendChannels(additive, sc, sc.a, dc))
  }

  /** What happens to a destination pixel under a source pixel. */
  type PixelFunction = (Word, Word) -> Word

  function KernelFunction(k: Kernel, sf: PixelFormat, df: PixelFormat, additive: bool): PixelFunction {
    match k
    case Copy => (s, d) => s
    case CopyOverlap => (s, d) => s
    case MaskAlpha => (s, d) => MaskAlphaPixel(sf, df, s)
    case NtoN => (s, d) => NtoNPixel(sf, df, s)
    case NtoNCopyAlpha => (s, d) => NtoNCopyAlphaPixel(sf, df, s)
    case FastSurfaceAlpha => (s, d) => FastSurfaceAlphaPixel(sf.surfaceAlpha, additive, s, d)
    case FastPixelAlpha => (s, d) => FastPixelAlphaPixel(additive, s, d)
    case NtoNSurfaceAlpha => (s, d) => NtoNSurfaceAlphaPixel(sf, df, additive, s, d)
    case NtoNPixelAlpha => (s, d) => NtoNPixelAlphaPixel(sf, df, additive, s, d)
  }

  lemma KernelIsFastSurface(sf: PixelFormat, df: PixelFormat, s: Word, d: Word)
    ensures KernelFunction(FastSurfaceAlpha, sf, df, false)(s, d) == FastSurfaceAlphaPixel(sf.surfaceAlpha, false, s, d)
  {
  }

  // ----- what the pixels mean, channel by channel -----

  /** Every colour channel blended on its own, under a given top lane. */
  function Blended(top: Byte, additive: bool, s: Word, d: Word, alpha: Byte): Word {
    if additive then Word(top, AddBlend(s.r, d.r, alpha), AddBlend(s.g, d.g, alpha), AddBlend(s.b, d.b, alpha))
    else Word(top, Lerp(s.r, d.r, alpha), Lerp(s.g, d.g, alpha), Lerp(s.b, d.b, alpha))
  }

  lemma AddLane(s: Byte, d: Byte, alpha: Byte)
    ensures AddWord(Low(s), Low(d), Low(255 - alpha)) == Low(AddBlend(s, d, alpha))
  {
    hide Mul, Shr, Add;
    Toward(d, 255 - alpha);
    MulLow(d, 255 - alpha);
    AddLaneOf(s, Mul(Low(d), Low(255 - alpha)), Times(d, 255 - alpha));
  }

  lemma MulLow(x: Byte, y: Byte)
    ensures Mul(Low(x), Low(y)).Value() == Times(x, y)
  {
    Toward(x, y);
    ValueFrom(Times(x, y));
    WrapIs(Times(x, y), 0, Times(x, y));
  }

  lemma AddLaneOf(s: Byte, product: Word, p: nat)
    requires product.Value() == p < 0x1_0000
    ensures Saturate(Add(Low(s), Shr(product, 8)))
         == Low(if s + p / 0x100 > 255 then 255 else s + p / 0x100)
  {
    hide Saturate, Add, Shr, FromInt;
    ShiftValues(product);
    SaturateSum(s, Shr(product, 8), p / 0x100);
  }

  lemma SaturateSum(s: Byte, v: Word, n: nat)
    requires v.Value() == n < 0x100
    ensures Saturate(Add(Low(s), v)) == Low(if s + n > 255 then 255 else s + n)
  {
    hide FromInt;
    SmallInt(s + n);
  }

  lemma SmallInt(t: nat)
    requires t < 0x1_0000
    ensures FromInt(t).Value() == t
    ensures t < 0x100 ==> FromInt(t) == Low(t)
  {
    ValueFrom(t);
    WrapIs(t, 0, t);
    if t < 0x100 {
      IntLanes(0, 0, 0, t);
    }
  }

  lemma ChannelLanes(w: Word)
    ensures Channel(w, 16) == Low(w.r) && Channel(w, 8) == Low(w.g) && Channel(w, 0) == Low(w.b)
  {
  }

  lemma JoinLanes(top: Byte, r: Byte, g: Byte, b: Byte)
    ensures Join(Word(top, 0, 0, 0), Low(r), Low(g), Low(b)) == Word(top, r, g, b)
  {
  }

  lemma FastAddMeaning(top: Byte, s: Word, d: Word, alpha: Byte)
    ensures FastAdd(Word(top, 0, 0, 0), s, d, alpha) == Blended(top, true, s, d, alpha)
  {
    ChannelLanes(s);
    ChannelLanes(d);
    AddLane(s.r, d.r, alpha);
    AddLane(s.g, d.g, alpha);
    AddLane(s.b, d.b, alpha);
    JoinLanes(top, AddBlend(s.r, d.r, alpha), AddBlend(s.g, d.g, alpha), AddBlend(s.b, d.b, alpha));
  }

  // The masks at work, one word at a time.

  lemma MaskedLanes(w: Word)
    ensures And(w, LANES_20) == Word(0, w.r, 0, w.b) && And(w, LANE_1) == Word(0, 0, w.g, 0)
    ensures And(w, LANES_210) == Word(0, w.r, w.g, w.b) && And(w, LANE_3) == Word(w.a, 0, 0, 0)
  {
  }

  lemma JoinBlend(r: Byte, g: Byte, b: Byte, top: Byte)
    ensures Or(Or(Word(0, r, 0, b), Word(0, 0, g, 0)), Word(top, 0, 0, 0)) == Word(top, r, g, b)
    ensures Or(Word(0, r, g, b), Word(top, 0, 0, 0)) == Word(top, r, g, b)
  {
  }

  lemma GreensTogether(g0: Byte, g1: Byte)
    ensures Or(Shr(Word(0, 0, g0, 0), 8), Shl(Word(0, 0, g1, 0), 8)) == Word(0, g1, 0, g0)
    ensures And(Shl(Word(0, g1, 0, g0), 8), LANE_1) == Word(0, 0, g0, 0)
    ensures And(Shr(Word(0, g1, 0, g0), 8), LANE_1) == Word(0, 0, g1, 0)
  {
  }

  lemma FastBlendMeaning(top: Byte, s: Word, d: Word, alpha: Byte)
    ensures FastBlend(Word(top, 0, 0, 0), s, d, alpha) == Blended(top, false, s, d, alpha)
  {
    MaskedLanes(s);
    MaskedLanes(d);
    BlendTwoLanes(s.r, s.b, d.r, d.b, alpha);
    BlendGreenLane(s.g, d.g, alpha);
    JoinBlend(Lerp(s.r, d.r, alpha), Lerp(s.g, d.g, alpha), Lerp(s.b, d.b, alpha), top);
  }

  /** The surface-alpha fast path: R, G and B move independently, alpha is 255. */
  lemma FastSurfaceAlphaMeaning(alpha: Byte, additive: bool, s: Word, d: Word)
    ensures FastSurfaceAlphaPixel(alpha, additive, s, d) == Blended(255, additive, s, d, alpha)
  {
    if additive {
      FastAddMeaning(255, s, d, alpha);
    } else {
      FastBlendMeaning(255, s, d, alpha);
    }
  }

  lemma TwoPixelMeaning(alpha: Byte, s0: Word, s1: Word, d0: Word, d1: Word)
    ensures TwoPixelBlend(alpha, s0, s1, d0, d1)
         == (Blended(255, false, s0, d0, alpha), Blended(255, false, s1, d1, alpha))
  {
    MaskedLanes(s0);
    MaskedLanes(s1);
    MaskedLanes(d0);
    MaskedLanes(d1);
    GreensTogether(s0.g, s1.g);
    GreensTogether(d0.g, d1.g);
    BlendTwoLanes(s0.r, s0.b, d0.r, d0.b, alpha);
    BlendTwoLanes(s1.r, s1.b, d1.r, d1.b, alpha);
    BlendTwoLanes(s1.g, s0.g, d1.g, d0.g, alpha);
    var m0, m1 := Blended(255, false, s0, d0, alpha), Blended(255, false, s1, d1, alpha);
    GreensTogether(m0.g, m1.g);
    JoinBlend(m0.r, m0.g, m0.b, 255);
    JoinBlend(m1.r, m1.g, m1.b, 255);
  }

  /** The unrolled body does to each of its pixels what the one-pixel body does. */
  lemma TwoPixelsAreTwiceOne(alpha: Byte, s0: Word, s1: Word, d0: Word, d1: Word)
    ensures TwoPixelBlend(alpha, s0, s1, d0, d1)
         == (FastSurfaceAlphaPixel(alpha, false, s0, d0), FastSurfaceAlphaPixel(alpha, false, s1, d1))
  {
    TwoPixelMeaning(alpha, s0, s1, d0, d1);
    FastSurfaceAlphaMeaning(alpha, false, s0, d0);
    FastSurfaceAlphaMeaning(alpha, false, s1, d1);
  }

  lemma FastPixelAlphaMeaning(additive: bool, s: Word, d: Word)
    ensures FastPixelAlphaPixel(additive, s, d) ==
            if s.a == 0 then d
            else if d.a == 0 then s
            else if s.a == 255 then s.(a := d.a)
            else Blended(d.a, additive, s, d, s.a)
  {
    hide FastAdd, FastBlend, Blended;
    MaskedLanes(d);
    if s.a == 0 || d.a == 0 {
    } else if s.a == 255 {
      MaskedLanes(s);
      JoinBlend(s.r, s.g, s.b, d.a);
    } else {
      FastPixelAlphaBlends(additive, s, d);
    }
  }

  lemma FastPixelAlphaBlends(additive: bool, s: Word, d: Word)
    requires 0 < s.a < 255 && d.a > 0
    ensures FastPixelAlphaPixel(additive, s, d) == Blended(d.a, additive, s, d, s.a)
  {
    hide FastAdd, FastBlend, Blended;
    MaskedLanes(d);
    if additive {
      FastAddMeaning(d.a, s, d, s.a);
    } else {
      FastBlendMeaning(d.a, s, d, s.a);
    }
  }

  /** The channels of one ARGB-ordered pixel, with some alpha word. */
  function ChannelsOf(w: Word, alpha: Word): Channels {
    Channels(Low(w.r), Low(w.g), Low(w.b), alpha)
  }

  lemma AddChannelsMeaning(s: Word, sa: Word, alpha: Byte, d: Word, da: Word)
    ensures BlendChannels(true, ChannelsOf(s, sa), Low(alpha), ChannelsOf(d, da))
         == ChannelsOf(Blended(0, true, s, d, alpha), da)
  {
    InverseAlpha(alpha);
    AddLane(s.r, d.r, alpha);
    AddLane(s.g, d.g, alpha);
    AddLane(s.b, d.b, alpha);
  }

  lemma InverseAlpha(alpha: Byte)
    ensures Sub(Low(255), Low(alpha)) == Low(255 - alpha)
  {
    SmallInt(255 - alpha);
  }

  lemma BlendChannelsMeaning(s: Word, sa: Word, alpha: Byte, d: Word, da: Word)
    ensures BlendChannels(false, ChannelsOf(s, sa), Low(alpha), ChannelsOf(d, da))
         == Channels(Spill(s.r, d.r, alpha), Spill(s.g, d.g, alpha), Spill(s.b, d.b, alpha), da)
  {
    BlendBottomLane(s.r, d.r, alpha);
    BlendBottomLane(s.g, d.g, alpha);
    BlendBottomLane(s.b, d.b, alpha);
  }

  /** A blended channel with what it leaves above its lane. */
  function Spill(s: Byte, d: Byte, alpha: Byte): Word {
    Word(if s < d && alpha > 0 then 1 else 0, 0, 0, Lerp(s, d, alpha))
  }

  lemma AssembleBlend(df: PixelFormat, additive: bool, s: Word, sa: Word, alpha: Byte, d: Word, da: Word, top: Byte)
    requires IsArgbLayout(df)
    ensures ToPixel(df, BlendChannels(additive, ChannelsOf(s, sa), Low(alpha), ChannelsOf(d, da)).(a := Low(top)))
         == Blended(if !additive && s.b < d.b && alpha > 0 then OrByte(1, top) else top, additive, s, d, alpha)
  {
    if additive {
      AddChannelsMeaning(s, sa, alpha, d, da);
      ToArgbPixel(df, ChannelsOf(Blended(0, true, s, d, alpha), Low(top)));
    } else {
      BlendChannelsMeaning(s, sa, alpha, d, da);
      ToArgbPixel(df, Channels(Spill(s.r, d.r, alpha), Spill(s.g, d.g, alpha), Spill(s.b, d.b, alpha), Low(top)));
    }
  }

  /** The general kernel on ARGB blends every channel too, but a blue channel
      that has to go down sets the lowest bit of the alpha written back. */
  lemma PixelAlphaOnArgb(sf: PixelFormat, df: PixelFormat, additive: bool, s: Word, d: Word)
    requires IsArgbLayout(sf) && sf.HasAlpha() && IsArgbLayout(df) && df.HasAlpha()
    ensures NtoNPixelAlphaPixel(sf, df, additive, s, d) ==
            if s.a == 0 then d
            else if d.a == 0 then s
            else Blended(if !additive && s.b < d.b then OrByte(1, d.a) else d.a, additive, s, d, s.a)
  {
    FromArgbPixel(sf, s);
    FromArgbPixel(df, d);
    if s.a != 0 && d.a == 0 {
      ToArgbPixel(df, FromPixel(sf, s));
    } else if s.a != 0 {
      AssembleBlend(df, additive, s, Low(s.a), s.a, d, Low(d.a), d.a);
    }
  }

  // ----- fast against general -----

  lemma LerpOpaque(s: Byte, d: Byte)
    ensures Lerp(s, d, 255) == if s > d then s - 1 else s
  {
    TimesIs(s - d, 255);
  }

  lemma SaturateOpaque(s: Byte, d: Byte)
    ensures AddBlend(s, d, 255) == s
  {
  }

  /** ARGB over ARGB: in additive mode the two kernels agree; in normal mode
      the colours agree below opaque alpha and the general one is short by one
      in each channel that has to go up at opaque alpha; the alphas agree
      exactly when the blue channel does not go down or alpha is odd. */
  lemma FastRefinesGeneral(sf: PixelFormat, df: PixelFormat, additive: bool, s: Word, d: Word)
    requires IsArgbLayout(sf) && sf.HasAlpha() && IsArgbLayout(df) && df.HasAlpha()
    ensures var fast := FastPixelAlphaPixel(additive, s, d);
            var slow := NtoNPixelAlphaPixel(sf, df, additive, s, d);
            && (additive ==> fast == slow)
            && (s.a != 255 || d.a == 0 ==> fast.r == slow.r && fast.g == slow.g && fast.b == slow.b)
            && (!additive && s.a == 255 && d.a != 0 ==>
                  && slow.r == fast.r - (if s.r > d.r then 1 else 0)
                  && slow.g == fast.g - (if s.g > d.g then 1 else 0)
                  && slow.b == fast.b - (if s.b > d.b then 1 else 0))
            && (d.a != 0 ==> fast.a == d.a)
            && (s.a != 0 && d.a != 0 && !additive ==>
                  (slow.a == fast.a <==> s.b >= d.b || d.a % 2 == 1))
  {
    FastPixelAlphaMeaning(additive, s, d);
    PixelAlphaOnArgb(sf, df, additive, s, d);
    LowestBit(d.a);
    if s.a == 255 {
      LerpOpaque(s.r, d.r);
      LerpOpaque(s.g, d.g);
      LerpOpaque(s.b, d.b);
      SaturateOpaque(s.r, d.r);
      SaturateOpaque(s.g, d.g);
      SaturateOpaque(s.b, d.b);
    }
  }

  lemma LowestBit(x: Byte)
    ensures OrByte(1, x) == x + 1 - x % 2
  {
    assert OrBits(1 / 2, x / 2) == x / 2;
  }

  /** The surface-alpha kernels agree on the colours for every alpha; they part
      on the alpha byte, and at surface alpha 0 the general one writes nothing. */
  lemma SurfaceAlphaRefinesGeneral(sf: PixelFormat, df: PixelFormat, additive: bool, s: Word, d: Word)
    requires IsArgbLayout(sf) && IsArgbLayout(df)
    ensures var fast := FastSurfaceAlphaPixel(sf.surfaceAlpha, additive, s, d);
            var slow := NtoNSurfaceAlphaPixel(sf, df, additive, s, d);
            && fast.a == 255
            && (sf.surfaceAlpha != 0 || !additive ==> fast.r == slow.r && fast.g == slow.g && fast.b == slow.b)
            && (sf.surfaceAlpha != 0 && df.HasAlpha() ==> fast == slow)
            && (sf.surfaceAlpha == 0 ==> slow == d)
  {
    var alpha := sf.surfaceAlpha;
    FastSurfaceAlphaMeaning(alpha, additive, s, d);
    if alpha == 0 {
      LerpTransparent(s.r, d.r);
      LerpTransparent(s.g, d.g);
      LerpTransparent(s.b, d.b);
    } else {
      SurfaceAlphaOnArgb(sf, df, additive, s, d);
    }
  }

  lemma LerpTransparent(s: Byte, d: Byte)
    ensures Lerp(s, d, 0) == d
  {
  }

  lemma SurfaceAlphaOnArgb(sf: PixelFormat, df: PixelFormat, additive: bool, s: Word, d: Word)
    requires IsArgbLayout(sf) && IsArgbLayout(df) && sf.surfaceAlpha != 0
    ensures NtoNSurfaceAlphaPixel(sf, df, additive, s, d)
         == Blended(if df.HasAlpha() then 255 else if !additive && s.b < d.b then 1 else 0,
                    additive, s, d, sf.surfaceAlpha)
  {
    var alpha := sf.surfaceAlpha;
    FromArgbPixel(sf, s);
    FromArgbPixel(df, d);
    AssembleBlend(df, additive, s, FromPixel(sf, s).a, alpha, d, FromPixel(df, d).a,
                  if df.HasAlpha() then 255 else 0);
    LowestBit(255);
  }

  // ----- the general kernels where they are selected -----

  predicate Is32Bit(kind: FormatType) {
    !kind.RGB?
  }

  /** A pixel of any 32-bit format with its channels in ARGB order; alpha is 0
      where the format has none. */
  function Seen(kind: FormatType, p: Word): Word {
    match kind
    case ARGB => p
    case XRGB => p.(a := 0)
    case RGBA => Word(p.b, p.a, p.r, p.g)
    case _ => Word(0, p.a, p.r, p.g)
  }

  function WithAlpha(kind: FormatType, alpha: Byte): PixelFormat {
    FormatOf(kind).(surfaceAlpha := alpha)
  }

  lemma FromAnyPixel(kind: FormatType, alpha: Byte, p: Word)
    requires Is32Bit(kind)
    ensures FromPixel(WithAlpha(kind, alpha), p) == ChannelsOf(Seen(kind, p), Low(Seen(kind, p).a))
  {
  }

  /** Only in the ARGB order is a channel next to the alpha it can spill into. */
  lemma ToAnyPixel(kind: FormatType, alpha: Byte, c: Channels)
    requires Is32Bit(kind)
    requires forall w | w in {c.r, c.g, c.b, c.a} :: w.r == w.g == 0
    requires c.a.a == 0
    ensures Seen(kind, ToPixel(WithAlpha(kind, alpha), c))
         == Word(if !FormatOf(kind).HasAlpha() then 0 else if kind.ARGB? then OrByte(c.b.a, c.a.b) else c.a.b,
                 c.r.b, c.g.b, c.b.b)
  {
    OrZero(c.a.b);
    OrZero(c.r.b);
    OrZero(c.g.b);
    OrZero(c.b.b);
    OrZero(0);
    hide OrByte;
  }

  lemma AssembleAny(to: FormatType, beta: Byte, additive: bool, s: Word, sa: Word, alpha: Byte, d: Word, da: Word,
                    top: Byte)
    requires Is32Bit(to) && alpha > 0
    ensures var c := BlendChannels(additive, ChannelsOf(s, sa), Low(alpha), ChannelsOf(d, da)).(a := Low(top));
            Seen(to, ToPixel(WithAlpha(to, beta), c)) ==
            Blended(if !FormatOf(to).HasAlpha() then 0
                    else if to.ARGB? && !additive && s.b < d.b then OrByte(1, top) else top,
                    additive, s, d, alpha)
  {
    hide ToPixel, FormatOf;
    OrZero(top);
    if additive {
      AddChannelsMeaning(s, sa, alpha, d, da);
      ToAnyPixel(to, beta, ChannelsOf(Blended(0, true, s, d, alpha), Low(top)));
    } else {
      BlendChannelsMeaning(s, sa, alpha, d, da);
      ToAnyPixel(to, beta, Channels(Spill(s.r, d.r, alpha), Spill(s.g, d.g, alpha), Spill(s.b, d.b, alpha), Low(top)));
    }
  }

  /** Which 32-bit surfaces get the general kernels: those that blend, except
      where both are in ARGB order. */
  lemma GeneralSelected(from: FormatType, alpha: Byte, disabled: bool, to: FormatType, beta: Byte, same: bool)
    requires Is32Bit(from) && Is32Bit(to)
    ensures var k := SelectKernel(WithAlpha(from, alpha), disabled, WithAlpha(to, beta), same);
            && (k == NtoNPixelAlpha <==> !disabled && (from.RGBA? || (from.ARGB? && (to.RGBA? || to.RGBX?))))
            && (k == NtoNSurfaceAlpha <==>
                  !disabled && alpha != 255 && (from.RGBX? || (from.XRGB? && (to.RGBA? || to.RGBX?))))
  {
  }

  /** The general pixel-alpha kernel between any two 32-bit formats: transparent,
      empty destination and blended cases, channel by channel. A blue channel that
      goes down sets the lowest bit of the alpha of an ARGB destination. */
  lemma NtoNPixelAlphaMeaning(from: FormatType, alpha: Byte, to: FormatType, beta: Byte, additive: bool,
                              s: Word, d: Word)
    requires from.ARGB? || from.RGBA?
    requires Is32Bit(to)
    ensures var s', d' := Seen(from, s), Seen(to, d);
            Seen(to, NtoNPixelAlphaPixel(WithAlpha(from, alpha), WithAlpha(to, beta), additive, s, d)) ==
            if s'.a == 0 then d'
            else if d'.a == 0 then s'.(a := if FormatOf(to).HasAlpha() then s'.a else 0)
            else Blended(if to.ARGB? && !additive && s'.b < d'.b then OrByte(1, d'.a) else d'.a, additive, s', d', s'.a)
  {
    hide ToPixel, FromPixel, BlendChannels, OrByte, Blended;
    var s', d' := Seen(from, s), Seen(to, d);
    FromAnyPixel(from, alpha, s);
    FromAnyPixel(to, beta, d);
    if s'.a != 0 {
      if d'.a == 0 {
        OrZero(s'.a);
        ToAnyPixel(to, beta, ChannelsOf(s', Low(s'.a)));
      } else {
        AssembleAny(to, beta, additive, s', Low(s'.a), s'.a, d', Low(d'.a), d'.a);
        BlendLeavesAlpha(additive, ChannelsOf(s', Low(s'.a)), Low(s'.a), ChannelsOf(d', Low(d'.a)));
      }
    }
  }

  lemma BlendLeavesAlpha(additive: bool, s: Channels, alpha: Word, d: Channels)
    ensures BlendChannels(additive, s, alpha, d).a == d.a
  {
  }

  /** The general surface-alpha kernel likewise: every colour is blended, and a
      destination with alpha becomes opaque. */
  lemma NtoNSurfaceAlphaMeaning(from: FormatType, alpha: Byte, to: FormatType, beta: Byte, additive: bool,
                                s: Word, d: Word)
    requires from.XRGB? || from.RGBX?
    requires Is32Bit(to)
    ensures Seen(to, NtoNSurfaceAlphaPixel(WithAlpha(from, alpha), WithAlpha(to, beta), additive, s, d))
         == if alpha == 0 then Seen(to, d)
            else Blended(if FormatOf(to).HasAlpha() then 255 else 0, additive, Seen(from, s), Seen(to, d), alpha)
  {
    hide ToPixel, FromPixel, BlendChannels, OrByte, Blended;
    if alpha != 0 {
      var s', d' := Seen(from, s), Seen(to, d);
      FromAnyPixel(from, alpha, s);
      FromAnyPixel(to, beta, d);
      LowestBit(255);
      AssembleAny(to, beta, additive, s', Low(s'.a), alpha, d', Low(d'.a), if FormatOf(to).HasAlpha() then 255 else 0);
    }
  }

  /** A blend that the selected general kernel does leaves the alpha of the
      destination alone, except in an ARGB destination, where a falling blue
      channel turns an even alpha into an odd one. */
  lemma GeneralBlendAndAlpha(from: FormatType, alpha: Byte, to: FormatType, beta: Byte, additive: bool,
                             s: Word, d: Word)
    requires Is32Bit(from) && Is32Bit(to)
    requires SelectKernel(WithAlpha(from, alpha), false, WithAlpha(to, beta), false) == NtoNPixelAlpha
    requires Seen(from, s).a != 0 && Seen(to, d).a != 0
    ensures var s', d' := Seen(from, s), Seen(to, d);
            var now := Seen(to, NtoNPixelAlphaPixel(WithAlpha(from, alpha), WithAlpha(to, beta), additive, s, d));
            && (now.a == d'.a <==> additive || !to.ARGB? || s'.b >= d'.b || d'.a % 2 == 1)
            && (now.a == d'.a || now.a == d'.a + 1)
  {
    GeneralSelected(from, alpha, false, to, beta, false);
    NtoNPixelAlphaMeaning(from, alpha, to, beta, additive, s, d);
    LowestBit(Seen(to, d).a);
  }

  /** On a destination without an alpha channel the selected general kernel never
      blends: the colours are the source's or those that were there. */
  lemma GeneralWithoutAlphaCopies(from: FormatType, alpha: Byte, to: FormatType, beta: Byte, additive: bool,
                                  s: Word, d: Word)
    requires Is32Bit(from) && (to.XRGB? || to.RGBX?)
    requires SelectKernel(WithAlpha(from, alpha), false, WithAlpha(to, beta), false) == NtoNPixelAlpha
    ensures Seen(to, NtoNPixelAlphaPixel(WithAlpha(from, alpha), WithAlpha(to, beta), additive, s, d))
         == if Seen(from, s).a == 0 then Seen(to, d) else Seen(from, s).(a := 0)
  {
    GeneralSelected(from, alpha, false, to, beta, false);
    NtoNPixelAlphaMeaning(from, alpha, to, beta, additive, s, d);
  }

  // ----- what the selected kernel does, whichever it is -----

  /** Whether a blit from such a surface blends. */
  predicate Blends(from: FormatType, alpha: Byte, disabled: bool) {
    !disabled && (FormatOf(from).HasAlpha() || alpha != 255)
  }

  /** What SetupBlitFunction selects for two surfaces, applied to two pixels. */
  function BlitPixel(from: FormatType, alpha: Byte, disabled: bool, to: FormatType, beta: Byte, same: bool,
                     additive: bool, s: Word, d: Word): Word {
    var sf, df := WithAlpha(from, alpha), WithAlpha(to, beta);
    KernelFunction(SelectKernel(sf, disabled, df, same), sf, df, additive)(s, d)
  }

  /** The byte of a pixel where its order has room for alpha, used or not. */
  function AlphaByte(kind: FormatType, p: Word): Byte {
    if kind.ARGB? || kind.XRGB? then p.a else p.b
  }

  predicate SameOrder(from: FormatType, to: FormatType) {
    (from.ARGB? || from.XRGB?) == (to.ARGB? || to.XRGB?)
  }

  /** Equal formats without blending: the pixel is copied, bit by bit. */
  lemma EqualFormatsCopy(kind: FormatType, alpha: Byte, disabled: bool, beta: Byte, same: bool, additive: bool,
                         s: Word, d: Word)
    requires Is32Bit(kind) && !Blends(kind, alpha, disabled)
    ensures BlitPixel(kind, alpha, disabled, kind, beta, same, additive, s, d) == s
  {
  }

  /** Different formats without blending: the colours are those of the source.
      A destination with alpha gets its own surface alpha or-ed with the unused
      byte of the source when both have the same order; otherwise the alpha of the
      source, which is 0 where the source has none. */
  lemma OtherFormatsConvert(from: FormatType, alpha: Byte, disabled: bool, to: FormatType, beta: Byte, same: bool,
                            additive: bool, s: Word, d: Word)
    requires Is32Bit(from) && Is32Bit(to) && from != to && !Blends(from, alpha, disabled)
    ensures Seen(to, BlitPixel(from, alpha, disabled, to, beta, same, additive, s, d))
         == Seen(from, s).(a := if !FormatOf(to).HasAlpha() then 0
                                else if SameOrder(from, to) then OrByte(AlphaByte(from, s), beta)
                                else Seen(from, s).a)
  {
    OrZero(s.a);
    OrZero(s.r);
    OrZero(s.g);
    OrZero(s.b);
    OrZero(0);
    OrZero(alpha);
    hide OrByte;
  }

  /** What blending with the alpha of each pixel comes to, in ARGB order. Between
      the two ARGB-ordered formats the unused byte of an XRGB destination counts
      as its alpha. */
  function PixelBlend(from: FormatType, to: FormatType, additive: bool, s: Word, d: Word): Word {
    var s', d' := Seen(from, s), Seen(to, d);
    var fast := from.ARGB? && SameOrder(from, to);
    var under := if fast then AlphaByte(to, d) else d'.a;
    var top := if FormatOf(to).HasAlpha() then d'.a else 0;
    if s'.a == 0 then d'
    else if under == 0 then s'.(a := if FormatOf(to).HasAlpha() then s'.a else 0)
    else if fast && s'.a == 255 then s'.(a := top)
    else Blended(if to.ARGB? && !fast && !additive && s'.b < d'.b then OrByte(1, top) else top, additive, s', d', s'.a)
  }

  lemma PixelsBlend(from: FormatType, alpha: Byte, to: FormatType, beta: Byte, same: bool, additive: bool,
                    s: Word, d: Word)
    requires (from.ARGB? || from.RGBA?) && Is32Bit(to)
    ensures Seen(to, BlitPixel(from, alpha, false, to, beta, same, additive, s, d))
         == PixelBlend(from, to, additive, s, d)
  {
    hide Blended, FastPixelAlphaPixel, NtoNPixelAlphaPixel, OrByte, ToPixel, FromPixel;
    if from.ARGB? && SameOrder(from, to) {
      FastPixelAlphaMeaning(additive, s, d);
      BlendedTop(d.a, 0, additive, s, d.(a := 0), s.a);
      BlendedAlpha(d.a, additive, s, d, d.(a := 0), s.a);
    } else {
      NtoNPixelAlphaMeaning(from, alpha, to, beta, additive, s, d);
    }
  }

  /** A blend does not look at the alphas of its pixels. */
  lemma BlendedAlpha(top: Byte, additive: bool, s: Word, d: Word, d': Word, alpha: Byte)
    requires d' == d.(a := d'.a)
    ensures Blended(top, additive, s, d, alpha) == Blended(top, additive, s, d', alpha)
  {
  }

  lemma BlendedTop(top: Byte, top': Byte, additive: bool, s: Word, d: Word, alpha: Byte)
    ensures Blended(top, additive, s, d, alpha).(a := top') == Blended(top', additive, s, d, alpha)
  {
  }

  /** Blending with the alpha of a surface without alpha of its own: every colour
      is blended and a destination with alpha becomes opaque; at surface alpha 0
      nothing is written, except between the two ARGB-ordered formats. */
  lemma SurfacesBlend(from: FormatType, alpha: Byte, to: FormatType, beta: Byte, same: bool, additive: bool,
                      s: Word, d: Word)
    requires (from.XRGB? || from.RGBX?) && alpha != 255 && Is32Bit(to)
    ensures Seen(to, BlitPixel(from, alpha, false, to, beta, same, additive, s, d))
         == if alpha == 0 && !(from.XRGB? && SameOrder(from, to)) then Seen(to, d)
            else Blended(if FormatOf(to).HasAlpha() then 255 else 0, additive, Seen(from, s), Seen(to, d), alpha)
  {
    hide Blended, FastSurfaceAlphaPixel, NtoNSurfaceAlphaPixel, OrByte, ToPixel, FromPixel;
    if from.XRGB? && SameOrder(from, to) {
      FastSurfaceAlphaMeaning(alpha, additive, s, d);
      BlendedTop(255, 0, additive, s, d, alpha);
      SourceAlpha(if to.ARGB? then 255 else 0, additive, s, d, alpha);
      BlendedAlpha(if to.ARGB? then 255 else 0, additive, s.(a := 0), d, Seen(to, d), alpha);
    } else {
      NtoNSurfaceAlphaMeaning(from, alpha, to, beta, additive, s, d);
    }
  }

  lemma SourceAlpha(top: Byte, additive: bool, s: Word, d: Word, alpha: Byte)
    ensures Blended(top, additive, s, d, alpha) == Blended(top, additive, s.(a := 0), d, alpha)
  {
  }

  // ----- kernels that convert -----

  function Colours(c: Channels): (Word, Word, Word) {
    (c.r, c.g, c.b)
  }

  /** Between any two 32-bit formats the general conversions carry every colour
      channel over. The alpha written is the surface alpha of the source, or its
      own alpha with the kernel that copies it; a source without alpha gives 0. */
  lemma ConversionKeepsChannels(from: FormatType, to: FormatType, alpha: Byte, beta: Byte, s: Word)
    requires Is32Bit(from) && Is32Bit(to)
    ensures var sf, df := FormatOf(from).(surfaceAlpha := alpha), FormatOf(to).(surfaceAlpha := beta);
            var plain, copied := FromPixel(df, NtoNPixel(sf, df, s)), FromPixel(df, NtoNCopyAlphaPixel(sf, df, s));
            && Colours(plain) == Colours(copied) == Colours(FromPixel(sf, s))
            && plain.a == Low(if df.HasAlpha() then alpha else 0)
            && copied.a == if df.HasAlpha() then FromPixel(sf, s).a else NO_BITS
  {
    OrZero(s.a);
    OrZero(s.r);
    OrZero(s.g);
    OrZero(s.b);
    OrZero(alpha);
    OrZero(0);
    hide OrByte;
  }

  /** There and back again between two formats gives the colours back. */
  lemma ConversionRoundTrip(from: FormatType, to: FormatType, alpha: Byte, beta: Byte, s: Word)
    requires Is32Bit(from) && Is32Bit(to)
    ensures var sf, df := FormatOf(from).(surfaceAlpha := alpha), FormatOf(to).(surfaceAlpha := beta);
            Colours(FromPixel(sf, NtoNPixel(df, sf, NtoNPixel(sf, df, s)))) == Colours(FromPixel(sf, s))
  {
    hide NtoNPixel, FromPixel, FormatOf;
    var sf, df := FormatOf(from).(surfaceAlpha := alpha), FormatOf(to).(surfaceAlpha := beta);
    ConversionKeepsChannels(from, to, alpha, beta, s);
    ConversionKeepsChannels(to, from, beta, alpha, NtoNPixel(sf, df, s));
  }

  /** The kernel for equal colour masks leaves the colours alone and sets or
      clears the alpha. */
  lemma MaskAlphaMeaning(sf: PixelFormat, df: PixelFormat, s: Word)
    requires IsArgbLayout(sf) && IsArgbLayout(df)
    ensures MaskAlphaPixel(sf, df, s) == s.(a := if df.HasAlpha() then OrByte(s.a, df.surfaceAlpha) else 0)
  {
    OrZero(s.r);
    OrZero(s.g);
    OrZero(s.b);
  }

  /** Which kernel 32-bit surfaces of the two ARGB-ordered formats get. */
  lemma SelectionOnArgb(sf: PixelFormat, alphaDisabled: bool, df: PixelFormat, sameSurface: bool)
    requires IsArgbLayout(sf) && IsArgbLayout(df) && sf.bytesPerPixel == 4 && df.bytesPerPixel == 4
    ensures var k := SelectKernel(sf, alphaDisabled, df, sameSurface);
            && (alphaDisabled || (!sf.HasAlpha() && sf.surfaceAlpha == 255) ==>
                  k == if sf.kind != df.kind then MaskAlpha else if sameSurface then CopyOverlap else Copy)
            && (!alphaDisabled && sf.HasAlpha() ==> k == FastPixelAlpha)
            && (!alphaDisabled && !sf.HasAlpha() && sf.surfaceAlpha != 255 ==> k == FastSurfaceAlpha)
  {
  }
}
