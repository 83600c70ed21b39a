/** One pixel drawn in a colour: SetPixelColorNoClip. A colour that is not
    opaque is multiplied with the pixel, channel by channel. */
module Pixels {
  import opened Arithmetic
  import opened Words
  import opened PixelFormats
  import opened Kernels
  import opened Drawing

  /** x, already increased by one, divided by 255 with two shifts. */
  function Shifted(x: Word): Word {
    Shr(Add(x, Shr(x, 8)), 8)
  }

  /** The ARGB code: red and green are multiplied in place, without moving the
      destination channel down. */
  function MultiplyPixel(s: Word, d: Word): Word {
    var a := Shifted(Add(Mul(Shr(s, 24), Shr(d, 24)), Word(0, 0, 0, 1)));
    var r := And(Shifted(Add(Mul(Shr(And(s, LANE_2), 16), And(d, LANE_2)), Word(0, 1, 0, 0))), LANE_2);
    var g := And(Shifted(Add(Mul(Shr(And(s, LANE_1), 8), And(d, LANE_1)), Word(0, 0, 1, 0))), LANE_1);
    var b := Shifted(Add(Mul(And(s, LANE_0), And(d, LANE_0)), Word(0, 0, 0, 1)));
    Or(Or(Or(Shl(a, 24), r), g), b)
  }

  /** The product of two channels on the scale where 255 is one. */
  function Multiplied(s: Byte, d: Byte): (m: Byte)
    ensures m <= s && m <= d
    ensures s == 255 ==> m == d
  {
    ChannelProduct(s, d);
    s * d / 255
  }

  lemma ChannelProduct(s: Byte, d: Byte)
    ensures 0 <= s * d <= 255 * s && s * d <= 255 * d
    ensures s == 255 ==> s * d / 255 == d
  {
    LessProduct(s, d, 255);
    LessProduct(d, s, 255);
  }

  /** Division by 255 as the code does it is exact. */
  lemma DivideBy255(p: nat)
    requires p <= 255 * 255
    ensures var n := p + 1; (n + n / 0x100) / 0x100 == p / 255 && 257 * n / 0x1_0000 == p / 255
  {
    var n := p + 1;
    assert n == 0x100 * (n / 0x100) + n % 0x100;
  }

  lemma TwoShifts(n: nat)
    ensures (n + n / 0x100) / 0x100 == 257 * n / 0x1_0000
  {
    assert n == 0x100 * (n / 0x100) + n % 0x100;
  }

  lemma ShiftedValue(w: Word)
    requires 257 * w.Value() < 0x100 * MODULUS
    ensures Shifted(w).Value() == 257 * w.Value() / 0x1_0000
  {
    hide FromInt, Shr, Add;
    ShiftValues(w);
    AddValue(w, Shr(w, 8));
    ShiftValues(Add(w, Shr(w, 8)));
    TwoShifts(w.Value());
  }

  /** One lane, whose lowest bit has the value unit. */
  lemma LaneProduct(s: Byte, d: Byte, lane: Word, product: Word, unit: nat)
    requires unit in {1, 0x100, 0x1_0000} && lane.Value() == unit
    requires product == FromInt(Times(s, unit * d))
    ensures Shifted(Add(product, lane)).Value() == 257 * ((s * d + 1) * unit) / 0x1_0000
  {
    hide FromInt, Shr, Add, Shifted, Times;
    ChannelProduct(s, d);
    TimesIs(s, unit * d);
    LaneValue(s, d, unit);
    SmallValue((s * d) * unit);
    AddValue(product, lane);
    ShiftedValue(Add(product, lane));
  }

  lemma LaneValue(s: Byte, d: Byte, unit: nat)
    requires 1 <= unit <= 0x1_0000 && s * d <= 255 * 255
    ensures s * (unit * d) == (s * d) * unit
    ensures (s * d + 1) * unit == (s * d) * unit + unit <= 65026 * 0x1_0000
  {
    assert (65026 - (s * d + 1)) * unit >= 0;
  }

  lemma SmallValue(n: nat)
    requires n < MODULUS
    ensures FromInt(n).Value() == n
  {
    ValueFrom(n);
  }

  lemma AddValue(v: Word, w: Word)
    requires v.Value() + w.Value() < MODULUS
    ensures Add(v, w).Value() == v.Value() + w.Value()
  {
    SmallValue(v.Value() + w.Value());
  }

  /** Every channel of the pixel is multiplied on its own. */
  lemma MultiplyPixelMeaning(s: Word, d: Word)
    ensures MultiplyPixel(s, d)
         == Word(Multiplied(s.a, d.a), Multiplied(s.r, d.r), Multiplied(s.g, d.g), Multiplied(s.b, d.b))
  {
    hide FromInt, Times, Shifted, Multiplied;
    BottomProduct(s.a, d.a);
    BottomProduct(s.b, d.b);
    MiddleProduct(s.g, d.g);
    UpperProduct(s.r, d.r);
    OrZero(Multiplied(s.a, d.a));
    OrZero(Multiplied(s.r, d.r));
    OrZero(Multiplied(s.g, d.g));
    OrZero(Multiplied(s.b, d.b));
  }

  lemma BottomProduct(s: Byte, d: Byte)
    ensures Shifted(Add(Mul(Low(s), Low(d)), Word(0, 0, 0, 1))) == Low(Multiplied(s, d))
  {
    hide FromInt, Times, Shifted;
    LaneProduct(s, d, Word(0, 0, 0, 1), Mul(Low(s), Low(d)), 1);
    ChannelProduct(s, d);
    DivideBy255(s * d);
    FromValue(Shifted(Add(Mul(Low(s), Low(d)), Word(0, 0, 0, 1))));
    FromValue(Low(Multiplied(s, d)));
  }

  lemma MiddleProduct(s: Byte, d: Byte)
    ensures And(Shifted(Add(Mul(Low(s), Word(0, 0, d, 0)), Word(0, 0, 1, 0))), LANE_1)
         == Word(0, 0, Multiplied(s, d), 0)
  {
    hide FromInt, Times, Shifted;
    LaneProduct(s, d, Word(0, 0, 1, 0), Mul(Low(s), Word(0, 0, d, 0)), 0x100);
    ChannelProduct(s, d);
    DivideBy255(s * d);
    var n := s * d + 1;
    assert 257 * (n * 0x100) / 0x1_0000 == 257 * n / 0x100;
    TopByteOf(257 * n / 0x100, Shifted(Add(Mul(Low(s), Word(0, 0, d, 0)), Word(0, 0, 1, 0))));
  }

  lemma TopByteOf(v: nat, w: Word)
    requires v < 0x1_0000 && w.Value() == v
    ensures w.g == v / 0x100
  {
  }

  lemma UpperProduct(s: Byte, d: Byte)
    ensures And(Shifted(Add(Mul(Low(s), Word(0, d, 0, 0)), Word(0, 1, 0, 0))), LANE_2)
         == Word(0, Multiplied(s, d), 0, 0)
  {
    hide FromInt, Times, Shifted;
    LaneProduct(s, d, Word(0, 1, 0, 0), Mul(Low(s), Word(0, d, 0, 0)), 0x1_0000);
    ChannelProduct(s, d);
    DivideBy255(s * d);
    UpperByteOf(257 * (s * d + 1), Shifted(Add(Mul(Low(s), Word(0, d, 0, 0)), Word(0, 1, 0, 0))));
  }

  lemma UpperByteOf(v: nat, w: Word)
    requires v < 0x100_0000 && w.Value() == v
    ensures w.r == v / 0x1_0000
  {
  }

  /** What SetPixelColorNoClip makes of a pixel: formats other than ARGB take
      the converted colour without blending. */
  function PixelPaint(color: Word, kind: FormatType): Paint {
    if kind.ARGB? && color.a != 255 then d => MultiplyPixel(color, d)
    else Solid(Converted(color, kind))
  }

  /** What a painted pixel is, channel by channel: on ARGB a translucent colour is
      multiplied with it; everything else shows the colour, and its alpha where the
      format has one. */
  lemma PixelPaintMeaning(color: Word, kind: FormatType, d: Word)
    requires Is32Bit(kind)
    ensures kind.ARGB? && color.a != 255 ==>
      var p := PixelPaint(color, kind)(d);
      p.a == color.a * d.a / 255 && p.r == color.r * d.r / 255
      && p.g == color.g * d.g / 255 && p.b == color.b * d.b / 255
    ensures !(kind.ARGB? && color.a != 255) ==>
      Seen(kind, PixelPaint(color, kind)(d)) == color.(a := if FormatOf(kind).HasAlpha() then color.a else 0)
  {
    hide MultiplyPixel;
    MultiplyPixelMeaning(color, d);
  }

  /** What a filled pixel is: an opaque colour and one over an empty pixel are taken
      as they are; otherwise every channel is the weighted mean and the alpha stays. */
  lemma FillPaintMeaning(color: Word, d: Word)
    ensures var p := FillPaint(color)(d);
            if color.a == 255 || d.a == 0 then p == color
            else p.a == d.a && p.r == (color.r * color.a + d.r * (255 - color.a)) / 0x100
                 && p.g == (color.g * color.a + d.g * (255 - color.a)) / 0x100
                 && p.b == (color.b * color.a + d.b * (255 - color.a)) / 0x100
  {
    hide Mix;
    MixIsBetween(color.r, d.r, color.a);
    MixIsBetween(color.g, d.g, color.a);
    MixIsBetween(color.b, d.b, color.a);
  }

  /** ConvertColor for the 32-bit formats. */
  function Converted(color: Word, kind: FormatType): Word {
    match kind
    case RGBA => Word(color.r, color.g, color.b, color.a)
    case XRGB => color.(a := 255)
    case RGBX => Word(color.r, color.g, color.b, 255)
    case _ => color
  }
}
