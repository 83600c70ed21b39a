/** The blend arithmetic of the pixel code: what one channel becomes, and that
    the word-sized expressions of the source compute it for several channels
    at once. */
module Blend {
  import opened Words

  // ----- what a blend means for one channel -----

  /** The channel moved from d towards s by alpha/256, rounded down. */
  function Lerp(s: Byte, d: Byte, alpha: Byte): (r: Byte)
    ensures if s <= d then s <= r <= d else d <= r <= s
  {
    Toward(s - d, alpha);
    d + Times(s - d, alpha) / 0x100
  }

  /** The channel added to what is left of d, saturating. */
  function AddBlend(s: Byte, d: Byte, alpha: Byte): (r: Byte)
    ensures s <= r <= s + d
  {
    Toward(d, 255 - alpha);
    var t := s + Times(d, 255 - alpha) / 0x100;
    if t > 255 then 255 else t
  }

  lemma LerpFormula(s: Byte, d: Byte, alpha: Byte)
    ensures Lerp(s, d, alpha) == d + (s - d) * alpha / 256
  {
    TimesIs(s - d, alpha);
  }

  lemma AddBlendFormula(s: Byte, d: Byte, alpha: Byte)
    ensures var sum := s + d * (255 - alpha) / 256; AddBlend(s, d, alpha) == if sum > 255 then 255 else sum
  {
    TimesIs(d, 255 - alpha);
  }

  lemma Toward(x: int, k: nat)
    requires -0x100 < x < 0x100 && k < 0x100
    ensures if x < 0 then x <= Times(x, k) / 0x100 <= 0 else 0 <= Times(x, k) / 0x100 <= x
    ensures -0x1_0000 < Times(x, k) < 0x1_0000
    ensures Times(x, k) < 0 <==> x < 0 && k > 0
  {
    TimesBounds(x, k);
  }

  lemma TimesBounds(x: int, k: nat)
    requires -0x100 < x < 0x100 && k < 0x100
    ensures if x < 0 then 0x100 * x <= Times(x, k) <= 0 else 0 <= Times(x, k) <= 0x100 * x
    ensures Times(x, k) < 0 <==> x < 0 && k > 0
  {
    if x < 0 {
      TimesNonnegative(-x, k);
      TimesScale(-1, -x, k);
    } else {
      TimesNonnegative(x, k);
    }
  }

  lemma {:induction false} TimesNonnegative(x: nat, k: nat)
    requires k < 0x100
    ensures 0 <= Times(x, k) <= 0x100 * x
    ensures Times(x, k) == 0 <==> x == 0 || k == 0
  {
    TimesIs(x, k);
    assert x * k + x * (0x100 - k) == 0x100 * x;
    assert 0 <= x * k && 0 <= x * (0x100 - k);
  }

  lemma TimesSplit(scale: int, x: int, y: int, k: nat)
    ensures Times(scale * x + y, k) == scale * Times(x, k) + Times(y, k)
  {
    TimesIs(scale * x + y, k);
    TimesIs(x, k);
    TimesIs(y, k);
    assert (scale * x + y) * k == scale * (x * k) + y * k;
  }

  lemma TimesScale(scale: int, x: int, k: nat)
    ensures Times(scale * x, k) == scale * Times(x, k)
  {
    TimesIs(scale * x, k);
    TimesIs(x, k);
    assert scale * x * k == scale * (x * k);
  }

  // ----- the shared expression d + ((s - d) * alpha >> 8) on words -----

  function BlendWord(d: Word, s: Word, alpha: Word): Word {
    Add(d, Shr(Mul(Sub(s, d), alpha), 8))
  }

  /** A negative product wraps around, which leaves 2^24 above the shifted
      product and nothing else. */
  function Carry(product: int): int {
    if product < 0 then 0x100_0000 else 0
  }

  /** The word an integer is kept in: its value modulo 2^32. */
  predicate Holds(w: Word, n: int) {
    w.Value() == n % MODULUS
  }

  lemma HoldsFrom(n: int)
    ensures Holds(FromInt(n), n)
  {
    ValueFrom(n);
  }

  /** d plus the shifted product, when the product stands for the integer p. */
  lemma SumValue(d: Word, product: Word, p: int)
    requires -MODULUS < p < MODULUS && Holds(product, p)
    ensures Add(d, Shr(product, 8)) == FromInt(d.Value() + p / 0x100 + Carry(p))
  {
    ShiftValues(product);
    WrapShift(p);
  }

  lemma WrapShift(p: int)
    requires -MODULUS < p < MODULUS
    ensures p % MODULUS / 0x100 == p / 0x100 + Carry(p)
  {
  }

  lemma ProductValue(s: Word, d: Word, alpha: Byte, x: int)
    requires s.Value() - d.Value() == x
    ensures Holds(Mul(Sub(s, d), Low(alpha)), Times(x, alpha))
  {
    hide FromInt, Mul;
    HoldsFrom(x);
    ProductHolds(Sub(s, d), x, alpha);
  }

  lemma ProductHolds(w: Word, n: int, alpha: Byte)
    requires Holds(w, n)
    ensures Holds(Mul(w, Low(alpha)), Times(n, alpha))
  {
    hide FromInt, Times;
    HoldsFrom(Times(n % MODULUS, alpha));
    WrapTimes(n, alpha);
    LowValue(alpha);
  }

  lemma LowValue(x: Byte)
    ensures Low(x).Value() == x
  {
  }

  lemma WrapTimes(x: int, k: nat)
    ensures Times(x % MODULUS, k) % MODULUS == Times(x, k) % MODULUS
  {
    var q, r := x / MODULUS, x % MODULUS;
    TimesSplit(MODULUS, q, r, k);
    WrapMultiple(Times(r, k), Times(q, k));
  }

  lemma WrapMultiple(n: int, q: int)
    ensures (MODULUS * q + n) % MODULUS == n % MODULUS
  {
  }

  // ----- the expression lane by lane -----

  lemma LanesOfSum(hi: int, lo: int)
    ensures (0x1_0000 * hi + lo) / 0x100 == 0x1_0000 * (hi / 0x100) + 0x100 * (hi % 0x100) + lo / 0x100
  {
    QuotientStep(hi);
    QuotientStep(lo);
    SplitByte(0x1_0000 * hi + lo, 0x100 * hi + lo / 0x100, lo % 0x100);
  }

  lemma TwoLanesOf(dHi: Byte, dLo: Byte, product: Word, hi: int, lo: int, x: Byte, y: Byte)
    requires -0x1_0000 < hi < 0x1_0000 && -0x1_0000 < lo < 0x1_0000
    requires Holds(product, 0x1_0000 * hi + lo)
    requires x == dHi + hi / 0x100 && y == dLo + lo / 0x100
    ensures And(Add(Word(0, dHi, 0, dLo), Shr(product, 8)), LANES_20) == Word(0, x, 0, y)
  {
    hide Add, Shr, FromInt, Holds;
    var p := 0x1_0000 * hi + lo;
    SumValue(Word(0, dHi, 0, dLo), product, p);
    LanesOfSum(hi, lo);
    IntLanes(if p < 0 then 1 else 0, x, hi % 0x100, y);
  }

  lemma GreenLaneOf(d: Byte, product: Word, p: int, x: Byte)
    requires -0x1_0000 < p < 0x1_0000
    requires Holds(product, 0x100 * p)
    requires x == d + p / 0x100
    ensures And(Add(Word(0, 0, d, 0), Shr(product, 8)), LANE_1) == Word(0, 0, x, 0)
  {
    hide Add, Shr, FromInt, Holds;
    SumValue(Word(0, 0, d, 0), product, 0x100 * p);
    LanesOfSum(0, 0x100 * p);
    QuotientStep(p);
    IntLanes(if p < 0 then 1 else 0, 0, x, p % 0x100);
  }

  lemma BottomLaneOf(d: Byte, product: Word, p: int, x: Byte)
    requires -0x1_0000 < p < 0x1_0000
    requires Holds(product, p)
    requires x == d + p / 0x100
    ensures Add(Low(d), Shr(product, 8)) == Word(if p < 0 then 1 else 0, 0, 0, x)
  {
    hide Add, Shr, FromInt, Holds;
    SumValue(Low(d), product, p);
    IntLanes(if p < 0 then 1 else 0, 0, 0, x);
  }

  /** Two channels 16 bits apart share one multiplication without a borrow
      between them. */
  lemma BlendTwoLanes(sHi: Byte, sLo: Byte, dHi: Byte, dLo: Byte, alpha: Byte)
    ensures And(BlendWord(Word(0, dHi, 0, dLo), Word(0, sHi, 0, sLo), Low(alpha)), LANES_20)
         == Word(0, Lerp(sHi, dHi, alpha), 0, Lerp(sLo, dLo, alpha))
  {
    hide Mul, Sub, Add, Shr, Times, Holds;
    var s, d := Word(0, sHi, 0, sLo), Word(0, dHi, 0, dLo);
    var hi, lo := Times(sHi - dHi, alpha), Times(sLo - dLo, alpha);
    Toward(sHi - dHi, alpha);
    Toward(sLo - dLo, alpha);
    ProductValue(s, d, alpha, 0x1_0000 * (sHi - dHi) + (sLo - dLo));
    TimesSplit(0x1_0000, sHi - dHi, sLo - dLo, alpha);
    TwoLanesOf(dHi, dLo, Mul(Sub(s, d), Low(alpha)), hi, lo, Lerp(sHi, dHi, alpha), Lerp(sLo, dLo, alpha));
  }

  lemma BlendGreenLane(s: Byte, d: Byte, alpha: Byte)
    ensures And(BlendWord(Word(0, 0, d, 0), Word(0, 0, s, 0), Low(alpha)), LANE_1)
         == Word(0, 0, Lerp(s, d, alpha), 0)
  {
    hide Mul, Sub, Add, Shr, Times, Holds;
    var sg, dg := Word(0, 0, s, 0), Word(0, 0, d, 0);
    Toward(s - d, alpha);
    ProductValue(sg, dg, alpha, 0x100 * (s - d));
    TimesScale(0x100, s - d, alpha);
    GreenLaneOf(d, Mul(Sub(sg, dg), Low(alpha)), Times(s - d, alpha), Lerp(s, d, alpha));
  }

  /** One channel in the bottom lane: a channel that has to go down carries
      into the lane above the three it is later shifted over. */
  lemma BlendBottomLane(s: Byte, d: Byte, alpha: Byte)
    ensures BlendWord(Low(d), Low(s), Low(alpha))
         == Word(if s < d && alpha > 0 then 1 else 0, 0, 0, Lerp(s, d, alpha))
  {
    hide Mul, Sub, Add, Shr, Times, Holds;
    Toward(s - d, alpha);
    ProductValue(Low(s), Low(d), alpha, s - d);
    BottomLaneOf(d, Mul(Sub(Low(s), Low(d)), Low(alpha)), Times(s - d, alpha), Lerp(s, d, alpha));
  }
}
