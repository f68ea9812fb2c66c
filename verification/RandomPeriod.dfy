/**
 * The period of the generator of utils/random.h. The step T is linear over XOR, and the
 * sixteen states T^0 e .. T^15 e of e = 0x8000 are the sixteen single bits; so a state v
 * is also a polynomial in T, applied to e. Powers of T are then found by squaring such
 * polynomials, never by stepping through the sequence.
 */
module RandomPeriod {
  import opened Words
  import opened Randoms

  const PERIOD := 65535
  const UNIT: bv16 := 0x8000

  // ---------------------------------------------------------------- linearity

  function Xor(x: bv16, y: bv16): bv16 { x ^ y }

  lemma {:induction false} NextIsLinear(x: bv16, y: bv16)
    ensures Next(Xor(x, y)) == Xor(Next(x), Next(y))
  {
  }

  lemma {:induction false} NextOfZero()
    ensures Next(0) == 0
  {
  }

  lemma {:induction false} IterateAdds(s: bv16, m: nat, n: nat)
    ensures Iterate(s, m + n) == Iterate(Iterate(s, m), n)
  {
    if n > 0 {
      IterateAdds(s, m, n - 1);
    }
  }

  lemma {:induction false} IterateOfZero(n: nat)
    ensures Iterate(0, n) == 0
  {
    if n > 0 {
      IterateOfZero(n - 1);
      NextOfZero();
    }
  }

  lemma {:induction false} IterateIsInjective(x: bv16, y: bv16, n: nat)
    requires Iterate(x, n) == Iterate(y, n)
    ensures x == y
  {
    if n > 0 {
      NextIsBijection(Iterate(x, n - 1));
      NextIsBijection(Iterate(y, n - 1));
      IterateIsInjective(x, y, n - 1);
    }
  }

  // ------------------------------------------------- states as polynomials in T

  function Double(w: bv16): bv16 { w << 1 }

  /** The state v with its lowest k bits moved to the top. */
  function Shifted(v: bv16, k: nat): bv16
    requires k <= 16
    decreases 16 - k
  {
    if k == 16 then v else Double(Shifted(v, k + 1))
  }

  /** The bits of v, from the coefficient of T^15 down to that of T^0. */
  function Bits(v: bv16): (b: seq<bool>)
    ensures |b| == 16
  {
    seq(16, k requires 0 <= k < 16 => Top(Shifted(v, k + 1)))
  }

  function Top(w: bv16): bool { w & 0x8000 != 0 }

  function Pick(b: bool, u: bv16): bv16 {
    if b then u else 0
  }

  /** The first k coefficients of a polynomial in T, applied to u by Horner's rule. */
  function Apply(bits: seq<bool>, u: bv16, k: nat): bv16
    requires k <= |bits|
  {
    if k == 0 then 0 else Xor(Next(Apply(bits, u, k - 1)), Pick(bits[k - 1], u))
  }

  /** The product of two states: the polynomial of v applied to u. */
  function Mul(u: bv16, v: bv16): bv16 {
    Apply(Bits(v), u, 16)
  }

  lemma {:induction false} XorAssociates(a: bv16, b: bv16, c: bv16)
    ensures Xor(Xor(a, b), c) == Xor(a, Xor(b, c))
  {
  }

  lemma {:induction false} XorCommutes(a: bv16, b: bv16)
    ensures Xor(a, b) == Xor(b, a)
  {
  }

  lemma {:induction false} XorSwap(a: bv16, b: bv16, c: bv16, d: bv16)
    ensures Xor(Xor(a, b), Xor(c, d)) == Xor(Xor(a, c), Xor(b, d))
  {
    hide Xor;
    XorAssociates(Xor(a, b), c, d);
    XorAssociates(a, b, c);
    XorCommutes(b, c);
    XorAssociates(a, c, b);
    XorAssociates(Xor(a, c), b, d);
  }

  lemma {:induction false} XorZero(x: bv16)
    ensures Xor(0, x) == x == Xor(x, 0) && Xor(x, x) == 0
  {
  }

  lemma {:induction false} PickXor(b: bool, u: bv16, w: bv16)
    ensures Pick(b, Xor(u, w)) == Xor(Pick(b, u), Pick(b, w))
  {
    XorZero(0);
  }

  lemma {:induction false} PickNext(b: bool, u: bv16)
    ensures Pick(b, Next(u)) == Next(Pick(b, u))
  {
    NextOfZero();
  }

  lemma {:induction false} ApplyIsLinear(bits: seq<bool>, u: bv16, w: bv16, k: nat)
    requires k <= |bits|
    ensures Apply(bits, Xor(u, w), k) == Xor(Apply(bits, u, k), Apply(bits, w, k))
  {
    hide Next, Xor, Pick;
    if k > 0 {
      ApplyIsLinear(bits, u, w, k - 1);
      NextIsLinear(Apply(bits, u, k - 1), Apply(bits, w, k - 1));
      PickXor(bits[k - 1], u, w);
      XorSwap(Next(Apply(bits, u, k - 1)), Next(Apply(bits, w, k - 1)), Pick(bits[k - 1], u), Pick(bits[k - 1], w));
    } else {
      XorZero(0);
    }
  }

  lemma {:induction false} ApplyToZero(bits: seq<bool>, k: nat)
    requires k <= |bits|
    ensures Apply(bits, 0, k) == 0
  {
    hide Next, Xor;
    if k > 0 {
      ApplyToZero(bits, k - 1);
      NextOfZero();
      XorZero(0);
    }
  }

  lemma {:induction false} ApplyCommutesWithNext(bits: seq<bool>, u: bv16, k: nat)
    requires k <= |bits|
    ensures Apply(bits, Next(u), k) == Next(Apply(bits, u, k))
  {
    hide Next, Xor, Pick;
    if k > 0 {
      ApplyCommutesWithNext(bits, u, k - 1);
      NextIsLinear(Next(Apply(bits, u, k - 1)), Pick(bits[k - 1], u));
      PickNext(bits[k - 1], u);
    } else {
      NextOfZero();
    }
  }

  lemma {:induction false} ApplyCommutesWithIterate(bits: seq<bool>, u: bv16, n: nat)
    requires |bits| == 16
    ensures Apply(bits, Iterate(u, n), 16) == Iterate(Apply(bits, u, 16), n)
  {
    hide Next, Apply;
    if n > 0 {
      ApplyCommutesWithIterate(bits, u, n - 1);
      ApplyCommutesWithNext(bits, Iterate(u, n - 1), 16);
    }
  }

  lemma {:induction false} ApplyPick(p: seq<bool>, b: bool, u: bv16)
    requires |p| == 16
    ensures Apply(p, Pick(b, u), 16) == Pick(b, Apply(p, u, 16))
  {
    ApplyToZero(p, 16);
  }

  /** Polynomials in the same T commute. */
  lemma {:induction false} ApplyCommutes(p: seq<bool>, q: seq<bool>, u: bv16, k: nat)
    requires |p| == 16 && k <= |q|
    ensures Apply(p, Apply(q, u, k), 16) == Apply(q, Apply(p, u, 16), k)
    decreases k
  {
    hide Next, Xor, Pick;
    if k == 0 {
      ApplyToZero(p, 16);
    } else {
      ApplyCommutes(p, q, u, k - 1);
      ApplyPick(p, q[k - 1], u);
      CommuteStep(p, Apply(q, u, k - 1), Pick(q[k - 1], u));
    }
  }

  lemma {:induction false} CommuteStep(p: seq<bool>, inner: bv16, u: bv16)
    requires |p| == 16
    ensures Apply(p, Xor(Next(inner), u), 16) == Xor(Next(Apply(p, inner, 16)), Apply(p, u, 16))
  {
    hide Next, Xor, Apply;
    ApplyIsLinear(p, Next(inner), u, 16);
    ApplyCommutesWithNext(p, inner, 16);
  }

  // --------------------------------------------------------- computing products

  /** One Horner step. */
  function Horner(h: bv16, b: bool, u: bv16): bv16 {
    Xor(Next(h), Pick(b, u))
  }

  /** Mul without recursion. */
  function Product(u: bv16, v: bv16): bv16 {
    var b := Bits(v);
    var h0: bv16 := 0;
    var h1 := Horner(h0, b[0], u);
    var h2 := Horner(h1, b[1], u);
    var h3 := Horner(h2, b[2], u);
    var h4 := Horner(h3, b[3], u);
    var h5 := Horner(h4, b[4], u);
    var h6 := Horner(h5, b[5], u);
    var h7 := Horner(h6, b[6], u);
    var h8 := Horner(h7, b[7], u);
    var h9 := Horner(h8, b[8], u);
    var h10 := Horner(h9, b[9], u);
    var h11 := Horner(h10, b[10], u);
    var h12 := Horner(h11, b[11], u);
    var h13 := Horner(h12, b[12], u);
    var h14 := Horner(h13, b[13], u);
    var h15 := Horner(h14, b[14], u);
    Horner(h15, b[15], u)
  }

  lemma {:induction false} MulIsProduct(u: bv16, v: bv16)
    ensures Mul(u, v) == Product(u, v)
  {
    hide Horner, Pick, Next, Xor, Bits;
    var b := Bits(v);
    ApplyStep(b, u, 0);
    ApplyStep(b, u, 1);
    ApplyStep(b, u, 2);
    ApplyStep(b, u, 3);
    ApplyStep(b, u, 4);
    ApplyStep(b, u, 5);
    ApplyStep(b, u, 6);
    ApplyStep(b, u, 7);
    ApplyStep(b, u, 8);
    ApplyStep(b, u, 9);
    ApplyStep(b, u, 10);
    ApplyStep(b, u, 11);
    ApplyStep(b, u, 12);
    ApplyStep(b, u, 13);
    ApplyStep(b, u, 14);
    ApplyStep(b, u, 15);
  }

  lemma {:induction false} ApplyStep(bits: seq<bool>, u: bv16, k: nat)
    requires k < |bits|
    ensures Apply(bits, u, k + 1) == Horner(Apply(bits, u, k), bits[k], u)
    ensures Apply(bits, u, 0) == 0
  {
  }

  function Rest(w: bv16): bv16 { w & 0x7fff }

  lemma {:induction false} NextOfDouble(w: bv16)
    ensures Next(Double(w)) == Rest(w)
  {
  }

  lemma {:induction false} RestOfHigh(w: bv16)
    requires w & 0x8000 != 0
    ensures (w & 0x7fff) ^ 0x8000 == w
  {
  }

  lemma {:induction false} RestOfLow(w: bv16)
    requires w & 0x8000 == 0
    ensures w & 0x7fff == w
  {
  }

  lemma {:induction false} RestAndTop(w: bv16)
    ensures Xor(Rest(w), Pick(Top(w), 0x8000)) == w
  {
    if Top(w) {
      RestOfHigh(w);
    } else {
      RestOfLow(w);
      XorZero(w);
    }
  }

  /** With the unit as argument a Horner step shifts one more bit in from the top. */
  lemma {:induction false} ShiftIn(w: bv16)
    ensures Horner(Double(w), Top(w), 0x8000) == w
  {
    hide Double, Top, Rest, Next, Xor, Pick;
    NextOfDouble(w);
    RestAndTop(w);
  }

  lemma {:induction false} DoubleShifts(v: bv16)
    ensures Double(v << 0) == v << 1
    ensures Double(v << 1) == v << 2
    ensures Double(v << 2) == v << 3
    ensures Double(v << 3) == v << 4
    ensures Double(v << 4) == v << 5
    ensures Double(v << 5) == v << 6
    ensures Double(v << 6) == v << 7
    ensures Double(v << 7) == v << 8
    ensures Double(v << 8) == v << 9
    ensures Double(v << 9) == v << 10
    ensures Double(v << 10) == v << 11
    ensures Double(v << 11) == v << 12
    ensures Double(v << 12) == v << 13
    ensures Double(v << 13) == v << 14
    ensures Double(v << 14) == v << 15
    ensures Double(v << 15) == v << 16
  {
  }

  lemma {:induction false} ShiftedStep(v: bv16, k: nat)
    requires k < 16
    ensures Shifted(v, k) == Double(Shifted(v, k + 1))
    ensures Shifted(v, 16) == v
  {
    hide Double;
  }

  lemma {:induction false} ShiftedOut(v: bv16)
    ensures v << 16 == 0
  {
  }

  lemma {:induction false} ShiftedAway(v: bv16)
    ensures Shifted(v, 0) == 0
  {
    hide Double, Shifted;
    DoubleShifts(v);
    ShiftedOut(v);
    ShiftedStep(v, 15);
    ShiftedStep(v, 14);
    ShiftedStep(v, 13);
    ShiftedStep(v, 12);
    ShiftedStep(v, 11);
    ShiftedStep(v, 10);
    ShiftedStep(v, 9);
    ShiftedStep(v, 8);
    ShiftedStep(v, 7);
    ShiftedStep(v, 6);
    ShiftedStep(v, 5);
    ShiftedStep(v, 4);
    ShiftedStep(v, 3);
    ShiftedStep(v, 2);
    ShiftedStep(v, 1);
    ShiftedStep(v, 0);
  }

  lemma {:induction false} ApplyToUnit(v: bv16, k: nat)
    requires k <= 16
    ensures Apply(Bits(v), 0x8000, k) == Shifted(v, k)
  {
    hide Double, Top, Horner;
    if k == 0 {
      ShiftedAway(v);
    } else {
      ApplyToUnit(v, k - 1);
      hide Apply;
      ApplyStep(Bits(v), 0x8000, k - 1);
      ShiftedStep(v, k - 1);
      ShiftIn(Shifted(v, k));
    }
  }

  /** Every state is its own polynomial applied to the unit: Horner's rule rebuilds it from its low bits up. */
  lemma {:induction false} MulOfUnit(v: bv16)
    ensures Mul(UNIT, v) == v
  {
    hide Apply, Bits;
    ApplyToUnit(v, 16);
    ShiftedStep(v, 0);
  }

  /** The n-th power of T acts as multiplication by the n-th iterate of the unit. */
  lemma {:induction false} PowerIsMul(v: bv16, n: nat)
    ensures Iterate(v, n) == Mul(Iterate(UNIT, n), v)
  {
    hide Apply;
    MulOfUnit(v);
    ApplyCommutesWithIterate(Bits(v), UNIT, n);
  }

  lemma {:induction false} PowersMultiply(m: nat, n: nat, x: bv16, y: bv16)
    requires Iterate(UNIT, m) == x && Iterate(UNIT, n) == y
    ensures Iterate(UNIT, m + n) == Product(x, y)
  {
    hide Product, Mul, Next;
    IterateAdds(UNIT, n, m);
    PowerIsMul(y, m);
    MulIsProduct(x, y);
  }

  // ------------------------------------------------------------------ squaring

  lemma {:induction false} SquaresLow()
    ensures Product(0x4000, 0x4000) == 0x2000
    ensures Product(0x2000, 0x2000) == 0x800
    ensures Product(0x800, 0x800) == 0x80
    ensures Product(0x80, 0x80) == 0xb400
    ensures Product(0xb400, 0xb400) == 0x8a20
    ensures Product(0x8a20, 0x8a20) == 0x8bc8
    ensures Product(0x8bc8, 0x8bc8) == 0x193e
    ensures Product(0x193e, 0x193e) == 0x5180
  {
  }

  lemma {:induction false} SquaresHigh()
    ensures Product(0x5180, 0x5180) == 0x9602
    ensures Product(0x9602, 0x9602) == 0xd823
    ensures Product(0xd823, 0xd823) == 0xb49
    ensures Product(0xb49, 0xb49) == 0xd5bc
    ensures Product(0xd5bc, 0xd5bc) == 0x1f2b
    ensures Product(0x1f2b, 0x1f2b) == 0xabd7
    ensures Product(0xabd7, 0xabd7) == 0xb1fe
    ensures Product(0xb1fe, 0xb1fe) == 0x4000
  {
  }

  /** T^1, T^2, T^4, ..., T^65536 of the unit, each the square of the one before. */
  lemma {:induction false} RepeatedSquares()
    ensures Iterate(UNIT, 1) == 0x4000
    ensures Iterate(UNIT, 2) == 0x2000
    ensures Iterate(UNIT, 4) == 0x800
    ensures Iterate(UNIT, 8) == 0x80
    ensures Iterate(UNIT, 16) == 0xb400
    ensures Iterate(UNIT, 32) == 0x8a20
    ensures Iterate(UNIT, 64) == 0x8bc8
    ensures Iterate(UNIT, 128) == 0x193e
    ensures Iterate(UNIT, 256) == 0x5180
    ensures Iterate(UNIT, 512) == 0x9602
    ensures Iterate(UNIT, 1024) == 0xd823
    ensures Iterate(UNIT, 2048) == 0xb49
    ensures Iterate(UNIT, 4096) == 0xd5bc
    ensures Iterate(UNIT, 8192) == 0x1f2b
    ensures Iterate(UNIT, 16384) == 0xabd7
    ensures Iterate(UNIT, 32768) == 0xb1fe
    ensures Iterate(UNIT, 65536) == 0x4000
  {
    FirstStep();
    hide Iterate, Product;
    SquaresLow();
    SquaresHigh();
    PowersMultiply(1, 1, 0x4000, 0x4000);
    PowersMultiply(2, 2, 0x2000, 0x2000);
    PowersMultiply(4, 4, 0x800, 0x800);
    PowersMultiply(8, 8, 0x80, 0x80);
    PowersMultiply(16, 16, 0xb400, 0xb400);
    PowersMultiply(32, 32, 0x8a20, 0x8a20);
    PowersMultiply(64, 64, 0x8bc8, 0x8bc8);
    PowersMultiply(128, 128, 0x193e, 0x193e);
    PowersMultiply(256, 256, 0x5180, 0x5180);
    PowersMultiply(512, 512, 0x9602, 0x9602);
    PowersMultiply(1024, 1024, 0xd823, 0xd823);
    PowersMultiply(2048, 2048, 0xb49, 0xb49);
    PowersMultiply(4096, 4096, 0xd5bc, 0xd5bc);
    PowersMultiply(8192, 8192, 0x1f2b, 0x1f2b);
    PowersMultiply(16384, 16384, 0xabd7, 0xabd7);
    PowersMultiply(32768, 32768, 0xb1fe, 0xb1fe);
  }

  lemma {:induction false} FirstStep()
    ensures Iterate(UNIT, 1) == 0x4000
  {
  }

  /** 65535 steps lead every state back to itself. */
  lemma {:induction false} FullTurn(s: bv16)
    ensures Iterate(s, PERIOD) == s
  {
    hide Iterate, Next, Mul;
    RepeatedSquares();
    IterateAdds(UNIT, PERIOD, 1);
    IterateIsInjective(Iterate(UNIT, PERIOD), UNIT, 1);
    PowerIsMul(s, PERIOD);
    MulOfUnit(s);
  }

  // ------------------------------------------------------- no shorter period

  /**
   * A power T^d leaves no nonzero state alone when q, which is T^d + 1 applied to the unit,
   * has an inverse r.
   */
  lemma {:induction false} OnlyZeroIsFixed(d: nat, w: bv16, q: bv16, r: bv16, v: bv16)
    requires Iterate(UNIT, d) == w && Xor(w, UNIT) == q && Product(q, r) == UNIT
    requires Iterate(v, d) == v
    ensures v == 0
  {
    hide Next, Iterate, Xor, Apply, Bits, Product;
    PowerIsMul(v, d);
    MulOfUnit(v);
    ApplyIsLinear(Bits(v), w, UNIT, 16);
    XorZero(v);
    assert Apply(Bits(v), q, 16) == 0;
    MulIsProduct(q, r);
    ApplyCommutes(Bits(v), Bits(r), q, 16);
    ApplyToZero(Bits(r), 16);
  }

  lemma {:induction false} Products21845()
    ensures Product(0x4000, 0x800) == 0x400
    ensures Product(0x400, 0xb400) == 0x5a0
    ensures Product(0x5a0, 0x8bc8) == 0xcf70
    ensures Product(0xcf70, 0x5180) == 0xdd87
    ensures Product(0xdd87, 0xd823) == 0x6803
    ensures Product(0x6803, 0xd5bc) == 0x3c5f
    ensures Product(0x3c5f, 0xabd7) == 0x5335
    ensures Xor(0x5335, 0x8000) == 0xd335 && Product(0xd335, 0x5335) == 0x8000
  {
  }

  lemma {:induction false} NoPeriod21845(v: bv16)
    requires Iterate(v, 21845) == v
    ensures v == 0
  {
    hide Iterate, Product, Xor;
    Products21845();
    RepeatedSquares();
    PowersMultiply(1, 4, 0x4000, 0x800);
    PowersMultiply(5, 16, 0x400, 0xb400);
    PowersMultiply(21, 64, 0x5a0, 0x8bc8);
    PowersMultiply(85, 256, 0xcf70, 0x5180);
    PowersMultiply(341, 1024, 0xdd87, 0xd823);
    PowersMultiply(1365, 4096, 0x6803, 0xd5bc);
    PowersMultiply(5461, 16384, 0x3c5f, 0xabd7);
    OnlyZeroIsFixed(21845, 0x5335, 0xd335, 0x5335, v);
  }

  lemma {:induction false} Products13107()
    ensures Product(0x4000, 0x2000) == 0x1000
    ensures Product(0x1000, 0xb400) == 0x1680
    ensures Product(0x1680, 0x8a20) == 0x8eb7
    ensures Product(0x8eb7, 0x5180) == 0xd2b6
    ensures Product(0xd2b6, 0x9602) == 0xe21f
    ensures Product(0xe21f, 0xd5bc) == 0x878e
    ensures Product(0x878e, 0x1f2b) == 0x5f61
    ensures Xor(0x5f61, 0x8000) == 0xdf61 && Product(0xdf61, 0xf03c) == 0x8000
  {
  }

  lemma {:induction false} NoPeriod13107(v: bv16)
    requires Iterate(v, 13107) == v
    ensures v == 0
  {
    hide Iterate, Product, Xor;
    Products13107();
    RepeatedSquares();
    PowersMultiply(1, 2, 0x4000, 0x2000);
    PowersMultiply(3, 16, 0x1000, 0xb400);
    PowersMultiply(19, 32, 0x1680, 0x8a20);
    PowersMultiply(51, 256, 0x8eb7, 0x5180);
    PowersMultiply(307, 512, 0xd2b6, 0x9602);
    PowersMultiply(819, 4096, 0xe21f, 0xd5bc);
    PowersMultiply(4915, 8192, 0x878e, 0x1f2b);
    OnlyZeroIsFixed(13107, 0x5f61, 0xdf61, 0xf03c, v);
  }

  lemma {:induction false} Products3855()
    ensures Product(0x4000, 0x2000) == 0x1000
    ensures Product(0x1000, 0x800) == 0x100
    ensures Product(0x100, 0x80) == 0x1
    ensures Product(0x1, 0x5180) == 0x9ab8
    ensures Product(0x9ab8, 0x9602) == 0xdc01
    ensures Product(0xdc01, 0xd823) == 0xaf69
    ensures Product(0xaf69, 0xb49) == 0x2d35
    ensures Xor(0x2d35, 0x8000) == 0xad35 && Product(0xad35, 0xeefe) == 0x8000
  {
  }

  lemma {:induction false} NoPeriod3855(v: bv16)
    requires Iterate(v, 3855) == v
    ensures v == 0
  {
    hide Iterate, Product, Xor;
    Products3855();
    RepeatedSquares();
    PowersMultiply(1, 2, 0x4000, 0x2000);
    PowersMultiply(3, 4, 0x1000, 0x800);
    PowersMultiply(7, 8, 0x100, 0x80);
    PowersMultiply(15, 256, 0x1, 0x5180);
    PowersMultiply(271, 512, 0x9ab8, 0x9602);
    PowersMultiply(783, 1024, 0xdc01, 0xd823);
    PowersMultiply(1807, 2048, 0xaf69, 0xb49);
    OnlyZeroIsFixed(3855, 0x2d35, 0xad35, 0xeefe, v);
  }

  lemma {:induction false} Products255()
    ensures Product(0x4000, 0x2000) == 0x1000
    ensures Product(0x1000, 0x800) == 0x100
    ensures Product(0x100, 0x80) == 0x1
    ensures Product(0x1, 0xb400) == 0x7c41
    ensures Product(0x7c41, 0x8a20) == 0x7f91
    ensures Product(0x7f91, 0x8bc8) == 0x327c
    ensures Product(0x327c, 0x193e) == 0xa300
    ensures Xor(0xa300, 0x8000) == 0x2300 && Product(0x2300, 0xe55) == 0x8000
  {
  }

  lemma {:induction false} NoPeriod255(v: bv16)
    requires Iterate(v, 255) == v
    ensures v == 0
  {
    hide Iterate, Product, Xor;
    Products255();
    RepeatedSquares();
    PowersMultiply(1, 2, 0x4000, 0x2000);
    PowersMultiply(3, 4, 0x1000, 0x800);
    PowersMultiply(7, 8, 0x100, 0x80);
    PowersMultiply(15, 16, 0x1, 0xb400);
    PowersMultiply(31, 32, 0x7c41, 0x8a20);
    PowersMultiply(63, 64, 0x7f91, 0x8bc8);
    PowersMultiply(127, 128, 0x327c, 0x193e);
    OnlyZeroIsFixed(255, 0xa300, 0x2300, 0xe55, v);
  }

  // ----------------------------------------------------------------- the period

  lemma {:induction false} PeriodMultiple(s: bv16, d: nat, k: nat)
    requires Iterate(s, d) == s
    ensures Iterate(s, k * d) == s
  {
    if k > 0 {
      PeriodMultiple(s, d, k - 1);
      assert k * d == (k - 1) * d + d;
      hide Iterate;
      IterateAdds(s, (k - 1) * d, d);
    }
  }

  /** The difference of two periods is a period. */
  lemma {:induction false} PeriodDifference(s: bv16, a: nat, b: nat)
    requires a <= b && Iterate(s, a) == s && Iterate(s, b) == s
    ensures Iterate(s, b - a) == s
  {
    hide Iterate;
    IterateAdds(s, a, b - a);
  }

  ghost predicate Prime(p: nat) {
    p > 1 && forall j :: 1 < j < p ==> p % j != 0
  }

  /** From p steps of length d down to one step, by taking remainders of the prime p. */
  lemma {:induction false} Descend(s: bv16, d: nat, p: nat, x: nat)
    requires Prime(p) && 0 < x < p
    requires Iterate(s, p * d) == s && Iterate(s, x * d) == s
    ensures Iterate(s, d) == s
    decreases x
  {
    hide Iterate;
    if x > 1 {
      var q, y := p / x, p % x;
      Remainder(s, d, p, x, q, y);
      Descend(s, d, p, y);
    }
  }

  lemma {:induction false} Remainder(s: bv16, d: nat, p: nat, x: nat, q: nat, y: nat)
    requires p == x * q + y
    requires Iterate(s, p * d) == s && Iterate(s, x * d) == s
    ensures Iterate(s, y * d) == s
  {
    hide Iterate;
    PeriodMultiple(s, x * d, q);
    Distribute(d, p, x, q, y);
    PeriodDifference(s, q * (x * d), p * d);
  }

  lemma {:induction false} Distribute(d: nat, p: nat, x: nat, q: nat, y: nat)
    requires p == x * q + y
    ensures q * (x * d) <= p * d && p * d - q * (x * d) == y * d
  {
    assert p * d == (x * q) * d + y * d;
    assert (x * q) * d == q * (x * d);
  }

  /** A period of a nonzero state is a multiple of each prime p for which 65535/p is no period of it. */
  lemma {:induction false} PrimeDivides(s: bv16, k: nat, d: nat, p: nat)
    requires Prime(p) && p * d == PERIOD && Iterate(s, k) == s && Iterate(s, d) != s
    ensures k % p == 0
  {
    hide Iterate;
    if k % p != 0 {
      FullTurn(s);
      PeriodMultiple(s, k, d);
      PeriodMultiple(s, PERIOD, k / p);
      var x := k % p;
      Remainder(s, d, k, p, k / p, x);
      Descend(s, d, p, x);
    }
  }

  lemma {:induction false} SmallPrimes()
    ensures Prime(3) && Prime(5) && Prime(17)
  {
  }

  lemma {:induction false} Prime257()
    ensures Prime(257)
  {
    forall j | 1 < j < 257
      ensures 257 % j != 0
    {
      if 257 % j == 0 {
        var h := 257 / j;
        assert j * h == 257;
        if j <= 16 {
          NoFactor(j, h);
        } else {
          LargeProduct(j, h);
          NoFactor(h, j);
        }
      }
    }
  }

  lemma {:induction false} LargeProduct(j: nat, h: nat)
    ensures j >= 17 && h >= 17 ==> j * h > 257
  {
  }

  lemma {:induction false} NoFactor(j: nat, h: nat)
    requires 1 < j <= 16
    ensures j * h != 257
  {
  }

  /** Every period of a nonzero state is a multiple of 65535. */
  lemma {:induction false} PeriodsAreMultiples(s: bv16, k: nat)
    requires s != 0 && Iterate(s, k) == s
    ensures k % PERIOD == 0
  {
    hide Iterate, Prime;
    SmallPrimes();
    Prime257();
    if Iterate(s, 21845) == s { NoPeriod21845(s); }
    if Iterate(s, 13107) == s { NoPeriod13107(s); }
    if Iterate(s, 3855) == s { NoPeriod3855(s); }
    if Iterate(s, 255) == s { NoPeriod255(s); }
    PrimeDivides(s, k, 21845, 3);
    PrimeDivides(s, k, 13107, 5);
    PrimeDivides(s, k, 3855, 17);
    PrimeDivides(s, k, 255, 257);
    FourPrimes(k);
  }

  /** Two divisors of k, with u * a = v * b + 1. */
  lemma {:induction false} CoprimeDivisors(k: int, i: int, j: int, a: nat, b: nat, u: nat, v: nat)
    requires k == a * i == b * j && u * a == v * b + 1
    ensures k == (a * b) * (u * j - v * i)
  {
    assert k == u * a * k - v * b * k by {
      assert (u * a) * k == (v * b) * k + k;
    }
    assert u * a * k == u * a * b * j;
    assert v * b * k == v * b * a * i;
  }

  lemma {:induction false} FourPrimes(k: nat)
    requires k % 3 == 0 && k % 5 == 0 && k % 17 == 0 && k % 257 == 0
    ensures k % PERIOD == 0
  {
    var c := Divided(k, 3);
    var d := Divided(k, 5);
    var e := Divided(k, 17);
    var f := Divided(k, 257);
    hide *;
    CoprimeDivisors(k, c, d, 3, 5, 2, 1);
    var g := 2 * d - c;
    CoprimeDivisors(k, g, e, 15, 17, 8, 7);
    var h := 8 * e - 7 * g;
    CoprimeDivisors(k, h, f, 255, 257, 128, 127);
    Multiple(k, 128 * f - 127 * h);
  }

  lemma {:induction false} Divided(k: nat, n: nat) returns (q: nat)
    requires n > 0 && k % n == 0
    ensures k == n * q
  {
    q := k / n;
  }

  lemma {:induction false} Multiple(k: nat, q: int)
    requires k == (255 * 257) * q
    ensures k % PERIOD == 0
  {
  }

  lemma {:induction false} TurnsAreFixed(s: bv16, n: nat)
    ensures Iterate(s, n) == Iterate(s, n % PERIOD)
  {
    hide Iterate;
    FullTurn(s);
    PeriodMultiple(s, PERIOD, n / PERIOD);
    IterateAdds(s, (n / PERIOD) * PERIOD, n % PERIOD);
  }

  /** The promised period: two of the states reached from a nonzero seed agree just when their numbers do. */
  lemma {:induction false} FullPeriod(seed: bv16, n: nat, m: nat)
    requires seed != 0
    ensures Iterate(seed, n) == Iterate(seed, m) <==> n % PERIOD == m % PERIOD
  {
    hide Iterate;
    TurnsAreFixed(seed, n);
    TurnsAreFixed(seed, m);
    if Iterate(seed, n) == Iterate(seed, m) {
      var a, b := n % PERIOD, m % PERIOD;
      if a < b {
        NoEarlyReturn(seed, a, b);
      } else if b < a {
        NoEarlyReturn(seed, b, a);
      }
    }
  }

  lemma {:induction false} NoEarlyReturn(seed: bv16, a: nat, b: nat)
    requires seed != 0 && a < b < PERIOD
    ensures Iterate(seed, a) != Iterate(seed, b)
  {
    hide Iterate;
    if Iterate(seed, a) == Iterate(seed, b) {
      IterateAdds(seed, b - a, a);
      IterateIsInjective(Iterate(seed, b - a), seed, a);
      PeriodsAreMultiples(seed, b - a);
    }
  }

  /** Zero is never reached from a nonzero seed. */
  lemma {:induction false} NeverZero(seed: bv16, n: nat)
    requires seed != 0
    ensures Iterate(seed, n) != 0
  {
    hide Iterate;
    if Iterate(seed, n) == 0 {
      IterateOfZero(n);
      IterateIsInjective(seed, 0, n);
    }
  }

  function Number(w: bv16): (n: nat)
    ensures n <= PERIOD
  {
    w as int
  }

  lemma {:induction false} NumberIsInjective(x: bv16, y: bv16)
    requires Number(x) == Number(y)
    ensures x == y
  {
    assert Number(x) as bv16 == x;
    assert Number(y) as bv16 == y;
  }

  /** The words among the first n states, as numbers. */
  ghost function Reached(seed: bv16, n: nat): (r: set<nat>) {
    if n == 0 then {} else Reached(seed, n - 1) + {Number(Iterate(seed, n - 1))}
  }

  /** If w is among the first n states, i is one place where it occurs. */
  lemma {:induction false} WhereReached(seed: bv16, n: nat, w: bv16) returns (i: nat)
    requires Number(w) in Reached(seed, n)
    ensures i < n && Iterate(seed, i) == w
  {
    hide Iterate, Number;
    if Number(w) == Number(Iterate(seed, n - 1)) {
      NumberIsInjective(w, Iterate(seed, n - 1));
      i := n - 1;
    } else {
      i := WhereReached(seed, n - 1, w);
    }
  }

  ghost function UpTo(n: nat): (r: set<nat>)
    ensures forall i: nat :: i in r <==> 1 <= i <= n
    ensures |r| == n
  {
    if n == 0 then {} else UpTo(n - 1) + {n}
  }

  lemma {:induction false} ReachedSize(seed: bv16, n: nat)
    requires seed != 0 && n <= PERIOD
    ensures |Reached(seed, n)| == n && Reached(seed, n) <= UpTo(PERIOD)
  {
    hide Iterate, UpTo, Number;
    if n > 0 {
      ReachedSize(seed, n - 1);
      var w := Iterate(seed, n - 1);
      NeverZero(seed, n - 1);
      if Number(w) == Number(0) {
        NumberIsInjective(w, 0);
      }
      NumberOfZero();
      if Number(w) in Reached(seed, n - 1) {
        var i := WhereReached(seed, n - 1, w);
        NoEarlyReturn(seed, i, n - 1);
      }
    }
  }

  lemma {:induction false} NumberOfZero()
    ensures Number(0) == 0
  {
  }

  /** Every nonzero word w occurs within one period, from every nonzero seed. */
  lemma {:induction false} EveryWordOccurs(seed: bv16, w: bv16) returns (i: nat)
    requires seed != 0 && w != 0
    ensures i < PERIOD && Iterate(seed, i) == w
  {
    hide Iterate, UpTo, Reached, Number;
    ReachedSize(seed, PERIOD);
    NumberOfZero();
    if Number(w) == Number(0) {
      NumberIsInjective(w, 0);
    }
    if Number(w) !in Reached(seed, PERIOD) {
      SubsetSize(Reached(seed, PERIOD), UpTo(PERIOD) - {Number(w)});
    }
    i := WhereReached(seed, PERIOD, w);
  }
}
