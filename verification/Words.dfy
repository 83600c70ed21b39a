/** 32-bit words as four byte lanes. Bitwise operators and shifts by whole
    lanes act on the lanes; arithmetic acts on the unsigned value, modulo 2^32. */
module Words {

  const MODULUS := 0x1_0000_0000

  type Byte = b: int | 0 <= b < 256

  datatype Word = Word(a: Byte, r: Byte, g: Byte, b: Byte) {
    function Value(): (n: nat)
      ensures n < MODULUS
    {
      0x100_0000 * a + 0x1_0000 * r + 0x100 * g + b
    }
  }

  /** The word an integer wraps around to; `/` rounds down, so this is also
      right for the negative result of a subtraction. */
  function FromInt(n: int): Word {
    var q1 := n / 0x100;
    var q2 := q1 / 0x100;
    var q3 := q2 / 0x100;
    Word(q3 % 0x100, q2 % 0x100, q1 % 0x100, n % 0x100)
  }

  lemma SplitByte(n: int, q: int, r: Byte)
    requires n == 0x100 * q + r
    ensures n / 0x100 == q && n % 0x100 == r
  {
  }

  lemma IntLanes(a: int, r: Byte, g: Byte, b: Byte)
    ensures FromInt(0x100_0000 * a + 0x1_0000 * r + 0x100 * g + b) == Word(a % 0x100, r, g, b)
  {
    var q2 := 0x100 * a + r;
    var q1 := 0x100 * q2 + g;
    SplitByte(0x100 * q1 + b, q1, b);
    SplitByte(q1, q2, g);
    SplitByte(q2, a, r);
  }

  lemma FromValue(w: Word)
    ensures FromInt(w.Value()) == w
  {
    IntLanes(w.a, w.r, w.g, w.b);
  }

  lemma ValueFrom(n: int)
    ensures FromInt(n).Value() == n % MODULUS
  {
    var q1 := n / 0x100;
    var q2 := q1 / 0x100;
    var q3 := q2 / 0x100;
    QuotientStep(n);
    QuotientStep(q1);
    QuotientStep(q2);
    QuotientStep(q3);
    WrapIs(n, q3 / 0x100, FromInt(n).Value());
  }

  lemma QuotientStep(n: int)
    ensures n == 0x100 * (n / 0x100) + n % 0x100
  {
  }

  lemma WrapIs(n: int, q: int, r: int)
    requires n == MODULUS * q + r && 0 <= r < MODULUS
    ensures n % MODULUS == r
  {
  }

  // ----- unsigned arithmetic -----

  /** x * k by repeated addition: products of two variables stay a function
      symbol in every proof that does not need their value. */
  function Times(x: int, k: nat): int {
    if k == 0 then 0 else x + Times(x, k - 1)
  }

  lemma {:induction false} TimesIs(x: int, k: nat)
    ensures Times(x, k) == x * k
  {
    if k > 0 {
      TimesIs(x, k - 1);
    }
  }

  function Add(v: Word, w: Word): Word { FromInt(v.Value() + w.Value()) }
  function Sub(v: Word, w: Word): Word { FromInt(v.Value() - w.Value()) }
  function Mul(v: Word, w: Word): Word { FromInt(Times(v.Value(), w.Value())) }

  // ----- bitwise operators -----

  function OrBits(x: nat, y: nat): nat {
    if x == 0 then y
    else if y == 0 then x
    else (if x % 2 == 1 || y % 2 == 1 then 1 else 0) + 2 * OrBits(x / 2, y / 2)
  }

  lemma {:induction false} OrBitsBelow(x: nat, y: nat, bits: nat)
    requires x < Pow2(bits) && y < Pow2(bits)
    ensures OrBits(x, y) < Pow2(bits)
    decreases bits
  {
    if x != 0 && y != 0 {
      OrBitsBelow(x / 2, y / 2, bits - 1);
    }
  }

  /** Bit i of a number. */
  predicate Bit(n: nat, i: nat) {
    if i == 0 then n % 2 == 1 else Bit(n / 2, i - 1)
  }

  lemma {:induction false} OrHasBits(x: nat, y: nat, i: nat)
    ensures Bit(OrBits(x, y), i) <==> Bit(x, i) || Bit(y, i)
  {
    if x == 0 || y == 0 {
      ZeroHasNoBits(i);
    } else if i > 0 {
      OrHasBits(x / 2, y / 2, i - 1);
    }
  }

  lemma {:induction false} ZeroHasNoBits(i: nat)
    ensures !Bit(0, i)
  {
    if i > 0 {
      ZeroHasNoBits(i - 1);
    }
  }

  function Pow2(bits: nat): nat {
    if bits == 0 then 1 else 2 * Pow2(bits - 1)
  }

  function OrByte(x: Byte, y: Byte): Byte {
    OrBitsBelow(x, y, 8);
    OrBits(x, y)
  }

  lemma OrZero(x: Byte)
    ensures OrByte(x, 0) == x == OrByte(0, x)
  {
  }

  function Or(v: Word, w: Word): Word {
    Word(OrByte(v.a, w.a), OrByte(v.r, w.r), OrByte(v.g, w.g), OrByte(v.b, w.b))
  }

  /** Every mask of the pixel code is made of 0x00 and 0xff bytes: it is the
      set of lanes it keeps. */
  datatype Lanes = Lanes(a: bool, r: bool, g: bool, b: bool)

  function Keep(x: Byte, keep: bool): Byte {
    if keep then x else 0
  }

  function And(w: Word, m: Lanes): Word {
    Word(Keep(w.a, m.a), Keep(w.r, m.r), Keep(w.g, m.g), Keep(w.b, m.b))
  }

  function OrLanes(m: Lanes, n: Lanes): Lanes {
    Lanes(m.a || n.a, m.r || n.r, m.g || n.g, m.b || n.b)
  }

  /** Shifts by whole lanes, the only ones the pixel code uses. */
  function Shl(w: Word, bits: nat): Word {
    if bits == 0 then w
    else if bits == 8 then Word(w.r, w.g, w.b, 0)
    else if bits == 16 then Word(w.g, w.b, 0, 0)
    else if bits == 24 then Word(w.b, 0, 0, 0)
    else NO_BITS
  }

  function Shr(w: Word, bits: nat): Word {
    if bits == 0 then w
    else if bits == 8 then Word(0, w.a, w.r, w.g)
    else if bits == 16 then Word(0, 0, w.a, w.r)
    else if bits == 24 then Word(0, 0, 0, w.a)
    else NO_BITS
  }

  /** A shift by one lane multiplies or divides the value by 256; the longer
      shifts repeat it. */
  lemma ShiftValues(w: Word)
    ensures Shr(w, 8).Value() == w.Value() / 0x100
    ensures Shl(w, 8).Value() == w.Value() * 0x100 % MODULUS
    ensures Shr(w, 16) == Shr(Shr(w, 8), 8) && Shr(w, 24) == Shr(Shr(w, 16), 8)
    ensures Shl(w, 16) == Shl(Shl(w, 8), 8) && Shl(w, 24) == Shl(Shl(w, 16), 8)
  {
    SplitByte(w.Value(), Shr(w, 8).Value(), w.b);
    WrapIs(w.Value() * 0x100, w.a, Shl(w, 8).Value());
  }

  const NO_BITS := Word(0, 0, 0, 0)

  const NO_LANES := Lanes(false, false, false, false)
  const LANE_3 := Lanes(true, false, false, false)
  const LANE_2 := Lanes(false, true, false, false)
  const LANE_1 := Lanes(false, false, true, false)
  const LANE_0 := Lanes(false, false, false, true)
  const LANES_20 := Lanes(false, true, false, true)
  const LANES_210 := Lanes(false, true, true, true)

  /** A one-byte quantity widened to a word. */
  function Low(x: Byte): Word { Word(0, 0, 0, x) }
}
