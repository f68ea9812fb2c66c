/**
 * utils/op.h: the assembly kernels, one statement per instruction. Registers are local
 * byte variables, `c` is the carry flag; after a multiplication the product is in r1:r0
 * and the carry is its bit 15. The calling convention wants r1 zero on entry and on exit.
 */
module AvrKernels {
  import opened Words

  type S8 = x: int | -0x80 <= x < 0x80
  type S16 = x: int | -0x8000 <= x < 0x8000

  // ------------------------------------------------------------- instructions

  /** The two's complement reading of a byte. */
  function Signed(x: Byte): S8 {
    if x < 0x80 then x else x - 0x100
  }

  function Low(x: int): Byte { x % 0x100 }

  function High(x: int): Byte { x / 0x100 % 0x100 }

  /** A register pair as an unsigned and as a signed number. */
  function Pair(low: Byte, high: Byte): U16 {
    low + 0x100 * (high as int)
  }

  function SignedPair(low: Byte, high: Byte): S16 {
    low + 0x100 * Signed(high) as int
  }

  function Bit(c: bool): int { if c then 1 else 0 }

  method Add(x: Byte, y: Byte) returns (z: Byte, c: bool)
    ensures z + 0x100 * Bit(c) == x + y
  {
    z, c := Low(x as int + y), x as int + y >= 0x100;
  }

  method Adc(x: Byte, y: Byte, carry: bool) returns (z: Byte, c: bool)
    ensures z + 0x100 * Bit(c) == x + y + Bit(carry)
  {
    var s := x as int + y + Bit(carry);
    z, c := Low(s), s >= 0x100;
  }

  method Sub(x: Byte, y: Byte) returns (z: Byte, c: bool)
    ensures z - 0x100 * Bit(c) == x - y
  {
    z, c := Low(x as int - y), x < y;
  }

  method Sbc(x: Byte, y: Byte, carry: bool) returns (z: Byte, c: bool)
    ensures z - 0x100 * Bit(c) == x - y - Bit(carry)
  {
    var d := x as int - y - Bit(carry);
    z, c := Low(d), d < 0;
  }

  function Com(x: Byte): Byte { 0xff - x }

  function Swap(x: Byte): Byte { x % 16 * 16 + x / 16 }

  /** `andi` with 15 and with 240. */
  function LowNibble(x: Byte): (y: Byte)
    ensures y < 16
  {
    x % 16
  }

  function HighNibble(x: Byte): (y: Byte)
    ensures y % 16 == 0
  {
    x / 16 * 16
  }

  /** `or` of a low nibble and a high nibble. */
  function OrNibbles(low: Byte, high: Byte): Byte
    requires low < 16 && high % 16 == 0
  {
    low + high
  }

  lemma {:induction false} ProductRange(x: int, y: int)
    requires -0x80 <= x < 0x100 && 0 <= y < 0x100
    ensures -0x8000 <= x * y <= 0xfe01
    ensures x < 0x80 ==> x * y < 0x8000
    ensures x >= 0 ==> x * y >= 0
    ensures x < 0 ==> x * y <= 0
    ensures x >= 0 ==> x * y <= x * 0xff
  {
    if x >= 0 {
      Positive(x, y);
      Positive(x, 0xff - y);
      assert x * (0xff - y) == x * 0xff - x * y;
    } else {
      Positive(0 - x, y);
      Positive(0 - x, 0xff - y);
      assert (0 - x) * y == 0 - x * y;
      assert (0 - x) * (0xff - y) == x * y - x * 0xff;
    }
  }

  lemma {:induction false} SignedProductRange(x: S8, y: S8)
    ensures -0x4000 <= x * y <= 0x4000
  {
    var a: int, b: int := x, y;
    assert (0x80 - a) * (0x80 + b) == 0x4000 + 0x80 * b - 0x80 * a - a * b;
    assert (0x80 + a) * (0x80 - b) == 0x4000 - 0x80 * b + 0x80 * a - a * b;
    assert (0x80 - a) * (0x80 - b) == 0x4000 - 0x80 * b - 0x80 * a + a * b;
    assert (0x80 + a) * (0x80 + b) == 0x4000 + 0x80 * b + 0x80 * a + a * b;
    Positive(0x80 - a, 0x80 + b);
    Positive(0x80 + a, 0x80 - b);
    Positive(0x80 - a, 0x80 - b);
    Positive(0x80 + a, 0x80 + b);
  }

  lemma {:induction false} Positive(x: nat, y: nat)
    ensures x * y >= 0
  {
  }

  /** Multiplication, under a name that proofs can keep folded. */
  function Times(x: int, y: int): int { x * y }

  /** A 16-bit result in r1:r0, and its bit 15 in the carry. */
  method Product(p: int) returns (r0: Byte, r1: Byte, c: bool)
    requires -0x8000 <= p < 0x1_0000
    ensures r0 + 0x100 * (r1 as int) == if p < 0 then p + 0x1_0000 else p
    ensures c == (r1 >= 0x80)
  {
    r0, r1, c := Low(p), High(p), p % 0x1_0000 >= 0x8000;
  }

  method Mul(x: Byte, y: Byte) returns (r0: Byte, r1: Byte, c: bool)
    ensures r0 + 0x100 * (r1 as int) == Times(x, y) && c == (r1 >= 0x80)
  {
    ProductRange(x, y);
    r0, r1, c := Product(x as int * y);
  }

  method Mulsu(x: Byte, y: Byte) returns (r0: Byte, r1: Byte, c: bool)
    ensures r0 + 0x100 * (r1 as int) - 0x1_0000 * Bit(c) == Times(Signed(x), y) && c == (r1 >= 0x80)
  {
    ProductRange(Signed(x), y);
    r0, r1, c := Product(Signed(x) as int * y);
  }

  method Muls(x: Byte, y: Byte) returns (r0: Byte, r1: Byte, c: bool)
    ensures r0 + 0x100 * (r1 as int) - 0x1_0000 * Bit(c) == Times(Signed(x), Signed(y)) && c == (r1 >= 0x80)
  {
    SignedProductRange(Signed(x), Signed(y));
    r0, r1, c := Product(Signed(x) as int * Signed(y));
  }

  // ------------------------------------------------- 16-bit multiply-and-shift

  /** The schoolbook product of two-byte numbers; upper bytes may be signed. */
  lemma {:induction false} Schoolbook(al: int, ah: int, bl: int, bh: int)
    ensures Times(al + 0x100 * ah, bl + 0x100 * bh)
      == Times(al, bl) + 0x100 * (Times(ah, bl) + Times(bh, al)) + 0x1_0000 * Times(ah, bh)
  {
    Distribute(al, 0x100 * ah, bl + 0x100 * bh);
    Distribute(bl, 0x100 * bh, al);
    Distribute(bl, 0x100 * bh, ah);
    assert 0x100 * ah * (bl + 0x100 * bh) == 0x100 * (ah * (bl + 0x100 * bh));
    assert 0x100 * bh * ah == 0x100 * (bh * ah);
    assert 0x100 * bh * al == 0x100 * (bh * al);
  }

  lemma {:induction false} Distribute(x: int, y: int, z: int)
    ensures (x + y) * z == x * z + y * z && z * (x + y) == x * z + y * z
  {
  }

  lemma {:induction false} Bytes(a: U16)
    ensures Low(a) + 0x100 * (High(a) as int) == a
  {
  }

  lemma {:induction false} UnsignedProductRange(a: U16, b: U16)
    ensures 0 <= Times(a, b) <= 0xfffe_0001 && Times(a, b) == a * b
  {
    var x: int, y: int := a, b;
    assert (0xffff - x) * (0xffff + y) == 0xfffe_0001 + 0xffff * y - 0xffff * x - x * y;
    assert (0xffff + x) * (0xffff - y) == 0xfffe_0001 - 0xffff * y + 0xffff * x - x * y;
    Positive(0xffff - x, 0xffff + y);
    Positive(0xffff + x, 0xffff - y);
    Positive(x, y);
  }

  method U16U16MulShift16(a: U16, b: U16) returns (result: U16, r1: Byte)
    ensures result == a * b / 0x1_0000 && r1 == 0
  {
    var a2, b2, a3, b3 := Low(a), High(a), Low(b), High(b);
    Bytes(a);
    Bytes(b);
    Schoolbook(a2, b2, a3, b3);
    UnsignedProductRange(a, b);
    hide Times, Low, High;
    var r0, c;
    var a1: Byte := 0;              // eor %A1, %A1
    r0, r1, c := Mul(a2, a3);      // mul %A2, %A3
    var b1 := r1;                   // mov %B1, r1
    r0, r1, c := Mul(b2, b3);      // mul %B2, %B3
    var a0, b0 := r0, r1;           // movw %A0, r0
    r0, r1, c := Mul(b3, a2);      // mul %B3, %A2
    b1, c := Add(b1, r0);          // add %B1, r0
    a0, c := Adc(a0, r1, c);       // adc %A0, r1
    b0, c := Adc(b0, a1, c);       // adc %B0, %A1
    r0, r1, c := Mul(b2, a3);      // mul %B2, %A3
    b1, c := Add(b1, r0);          // add %B1, r0
    a0, c := Adc(a0, r1, c);       // adc %A0, r1
    b0, c := Adc(b0, a1, c);       // adc %B0, %A1
    r1 := 0;                        // eor r1, r1
    result := Pair(a0, b0);
  }

  lemma {:induction false} SignedBytes(a: S16)
    ensures Low(a) + 0x100 * (Signed(High(a)) as int) == a
  {
  }

  lemma {:induction false} MixedProductRange(a: S16, b: U16)
    ensures -0x7fff_8000 <= Times(a, b) <= 0x7ffe_8001 && Times(a, b) == a * b
  {
    var x: int, y: int := a, b;
    assert (0x8000 + x) * y == 0x8000 * y + x * y;
    assert (0x7fff - x) * y == 0x7fff * y - x * y;
    Positive(0x8000 + x, y);
    Positive(0x7fff - x, y);
  }

  /** Signed times unsigned; the carry of `mulsu` extends the sign into the upper byte. */
  method S16U16Core(a2: Byte, b2: Byte, a3: Byte, b3: Byte) returns (a0: Byte, b0: Byte, r1: Byte)
    ensures SignedPair(a0, b0) == SignedPair(a2, b2) * Pair(a3, b3) / 0x1_0000 && r1 == 0
  {
    Schoolbook(a2, Signed(b2), a3, b3);
    MixedProductRange(SignedPair(a2, b2), Pair(a3, b3));
    ghost var t: int := Times(SignedPair(a2, b2), Pair(a3, b3));
    assert SignedPair(a2, b2) == a2 + 0x100 * (Signed(b2) as int);
    hide Times, Low, High, SignedPair, Signed;
    var r0, c;
    ghost var k: int := 0;          // multiples of 2^24 dropped on the way
    var a1: Byte := 0;              // eor %A1, %A1
    r0, r1, c := Mul(a2, a3);       // mul %A2, %A3
    ghost var l0 := r0;
    var b1 := r1;                   // mov %B1, r1
    r0, r1, c := Mulsu(b2, b3);     // mulsu %B2, %B3
    k := Bit(c);
    a0, b0 := r0, r1;               // movw %A0, r0
    r0, r1, c := Mul(b3, a2);       // mul %B3, %A2
    b1, c := Add(b1, r0);           // add %B1, r0
    a0, c := Adc(a0, r1, c);        // adc %A0, r1
    b0, c := Adc(b0, a1, c);        // adc %B0, %A1
    k := k - Bit(c);
    r0, r1, c := Mulsu(b2, a3);     // mulsu %B2, %A3
    b0, c := Sbc(b0, a1, c);        // sbc %B0, %A1
    k := k + Bit(c);
    b1, c := Add(b1, r0);           // add %B1, r0
    a0, c := Adc(a0, r1, c);        // adc %A0, r1
    b0, c := Adc(b0, a1, c);        // adc %B0, %A1
    k := k - Bit(c);
    r1 := 0;                        // eor r1, r1
    assert t == l0 + 0x100 * b1 as int + 0x1_0000 * (Pair(a0, b0) - 0x1_0000 * k);
    FloorIs(t, 0x1_0000, Pair(a0, b0) - 0x1_0000 * k, l0 + 0x100 * b1 as int);
    SignedPairFrom(a0, b0, Pair(a0, b0) - 0x1_0000 * k, k);
  }

  lemma {:induction false} FloorIs(t: int, n: int, q: int, r: int)
    requires n == 0x100 || n == 0x1_0000
    requires t == r + n * q && 0 <= r < n
    ensures t / n == q
  {
  }

  /** A register pair holding a value modulo 2^16 holds it exactly when it is in range. */
  lemma {:induction false} SignedPairFrom(low: Byte, high: Byte, v: int, k: int)
    requires Pair(low, high) == v + 0x1_0000 * k && -0x8000 <= v < 0x8000
    ensures SignedPair(low, high) == v
  {
  }

  method S16U16MulShift16(a: S16, b: U16) returns (result: S16, r1: Byte)
    ensures result == a * b / 0x1_0000 && r1 == 0
  {
    SignedBytes(a);
    Bytes(b);
    hide Low, High, Signed;
    var a0, b0;
    a0, b0, r1 := S16U16Core(Low(a), High(a), Low(b), High(b));
    result := SignedPair(a0, b0);
  }

  /** Doubling a register pair: add low to itself, then high with the carry. */
  method DoublePair(low: Byte, high: Byte) returns (l: Byte, h: Byte)
    ensures Pair(l, h) == 2 * Pair(low, high) % 0x1_0000
  {
    hide Low, High;
    var c;
    l, c := Add(low, low);
    h, c := Adc(high, high, c);
    WrapIs(2 * Pair(low, high), Pair(l, h), Bit(c));
  }

  lemma {:induction false} WrapIs(s: int, v: U16, k: int)
    requires s == v + 0x1_0000 * k
    ensures v == s % 0x1_0000
  {
  }

  lemma {:induction false} DoubleWrap(p: nat)
    ensures 2 * (p % 0x1_0000) % 0x1_0000 == 2 * p % 0x1_0000
  {
    var v: U16 := 2 * (p % 0x1_0000) % 0x1_0000;
    var j, k := p / 0x1_0000, 2 * (p % 0x1_0000) / 0x1_0000;
    assert 2 * p == v + 0x1_0000 * (2 * j + k);
    WrapIs(2 * p, v, 2 * j + k);
  }

  /** Four doublings. */
  method ShiftPairLeft4(low: Byte, high: Byte) returns (l: Byte, h: Byte)
    ensures Pair(l, h) == 16 * Pair(low, high) % 0x1_0000
  {
    hide Pair;
    ghost var x: int := Pair(low, high);
    l, h := DoublePair(low, high);
    l, h := DoublePair(l, h);
    DoubleWrap(2 * x);
    assert Pair(l, h) == 4 * x % 0x1_0000;
    l, h := DoublePair(l, h);
    DoubleWrap(4 * x);
    assert Pair(l, h) == 8 * x % 0x1_0000;
    l, h := DoublePair(l, h);
    DoubleWrap(8 * x);
  }

  /** For a 12-bit b the exact shifted product; a larger b first loses its upper bits. */
  method S16U12MulShift12(a: S16, b: U16) returns (result: S16, r1: Byte)
    ensures result == a * (16 * b % 0x1_0000) / 0x1_0000 && r1 == 0
    ensures b < 0x1000 ==> result == a * b / 0x1000
  {
    SignedBytes(a);
    Bytes(b);
    assert SignedPair(Low(a), High(a)) == a && Pair(Low(b), High(b)) == b;
    hide Low, High, Signed, Pair, SignedPair;
    var a3, b3 := ShiftPairLeft4(Low(b), High(b));
    var a0, b0;
    a0, b0, r1 := S16U16Core(Low(a), High(a), a3, b3);
    result := SignedPair(a0, b0);
    if b < 0x1000 {
      ShiftTwelve(a, b);
    }
  }

  lemma {:induction false} ShiftTwelve(a: S16, b: U16)
    requires b < 0x1000
    ensures a * (16 * b % 0x1_0000) / 0x1_0000 == a * b / 0x1000
  {
    assert 16 * b % 0x1_0000 == 16 * b;
    var x: int := a * b;
    assert a * (16 * b) == 16 * x;
  }

  method S16U8MulShift8(a: S16, b: Byte) returns (result: S16, r1: Byte)
    ensures result == a * b / 0x100 && r1 == 0
  {
    var a1, b1, a2 := Low(a), High(a), b;
    SignedBytes(a);
    Schoolbook(a1, Signed(b1), a2, 0);
    NoHighByte(a1, Signed(b1));
    ByteScaleRange(a, b);
    hide Times, Low, High, Signed;
    ghost var t: int := Times(a, b);
    var r0, c;
    var b0: Byte := 0;              // eor %B0, %B0
    r0, r1, c := Mul(a1, a2);       // mul %A1, %A2
    ghost var l0 := r0;
    var a0 := r1;                   // mov %A0, r1
    r0, r1, c := Mulsu(b1, a2);     // mulsu %B1, %A2
    ghost var k := Bit(c);          // multiples of 2^16 dropped on the way
    a0, c := Add(a0, r0);           // add %A0, r0
    b0, c := Adc(b0, r1, c);        // adc %B0, r1
    k := k - Bit(c);
    r1 := 0;                        // eor r1, r1
    FloorIs(t, 0x100, Pair(a0, b0) - 0x1_0000 * k, l0);
    SignedPairFrom(a0, b0, Pair(a0, b0) - 0x1_0000 * k, k);
    result := SignedPair(a0, b0);
  }

  lemma {:induction false} NoHighByte(x: int, y: int)
    ensures Times(0, x) == 0 && Times(y, 0) == 0
  {
  }

  lemma {:induction false} ByteScaleRange(a: int, b: Byte)
    requires -0x8000 <= a < 0x1_0000
    ensures Times(a, b) == a * b && -0x8000 * 0xff <= Times(a, b)
    ensures a < 0x8000 ==> Times(a, b) <= 0x7fff * 0xff
    ensures a >= 0 ==> 0 <= Times(a, b) <= 0xffff * 0xff
  {
    var x: int, y: int := a, b;
    assert (0x8000 + x) * y == 0x8000 * y + x * y;
    Positive(0x8000 + x, y);
    if a < 0x8000 {
      assert (0x7fff - x) * y == 0x7fff * y - x * y;
      Positive(0x7fff - x, y);
    }
    if a >= 0 {
      assert (0xffff - x) * y == 0xffff * y - x * y;
      Positive(0xffff - x, y);
      Positive(x, y);
    }
  }

  method U16U8MulShift8(a: U16, b: Byte) returns (result: U16, r1: Byte)
    ensures result == a * b / 0x100 && r1 == 0
  {
    var a1, b1, a2 := Low(a), High(a), b;
    Bytes(a);
    Schoolbook(a1, b1, a2, 0);
    NoHighByte(a1, b1);
    ByteScaleRange(a, b);
    hide Times, Low, High;
    var r0, c;
    var b0: Byte := 0;              // eor %B0, %B0
    r0, r1, c := Mul(a1, a2);       // mul %A1, %A2
    var a0 := r1;                   // mov %A0, r1
    r0, r1, c := Mul(b1, a2);       // mul %B1, %A2
    a0, c := Add(a0, r0);           // add %A0, r0
    b0, c := Adc(b0, r1, c);        // adc %B0, r1
    r1 := 0;                        // eor r1, r1
    result := Pair(a0, b0);
  }

  method S16S8MulShift8(a: S16, b: S8) returns (result: S16, r1: Byte)
    ensures result == a * b / 0x100 && r1 == 0
  {
    var a1, b1, a2 := Low(a), High(a), Low(b);
    SignedBytes(a);
    Schoolbook(a1, Signed(b1), b, 0);
    NoHighByte(a1, Signed(b1));
    SignedScaleRange(a, b);
    assert Signed(a2) == b;
    Commute(b, Signed(b1));
    Commute(b, a1);
    hide Times, Low, High, Signed;
    ghost var t: int := Times(a, b);
    var r0, c;
    var b0: Byte := 0;              // eor %B0, %B0
    r0, r1, c := Muls(a2, b1);      // muls %A2, %B1
    ghost var k := Bit(c);          // multiples of 2^16 dropped on the way
    var a0 := r0;                   // movw %A0, r0
    b0 := r1;
    r0, r1, c := Mulsu(a2, a1);     // mulsu %A2, %A1
    ghost var l0 := r0;
    r0 := 0;                        // eor r0, r0
    b0, c := Sbc(b0, r0, c);        // sbc %B0, r0
    k := k + Bit(c);
    a0, c := Add(a0, r1);           // add %A0, r1
    b0, c := Adc(b0, r0, c);        // adc %B0, r0
    k := k - Bit(c);
    r1 := 0;                        // eor r1, r1
    FloorIs(t, 0x100, Pair(a0, b0) - 0x1_0000 * k, l0);
    SignedPairFrom(a0, b0, Pair(a0, b0) - 0x1_0000 * k, k);
    result := SignedPair(a0, b0);
  }

  lemma {:induction false} Commute(x: int, y: int)
    ensures Times(x, y) == Times(y, x)
  {
  }

  lemma {:induction false} SignedScaleRange(a: S16, b: S8)
    ensures Times(a, b) == a * b && -0x8000 * 0x80 <= Times(a, b) <= 0x8000 * 0x80
  {
    var x: int, y: int := a, b;
    assert (0x8000 + x) * (0x80 + y) == 0x8000 * 0x80 + 0x8000 * y + 0x80 * x + x * y;
    assert (0x8000 - x) * (0x80 - y) == 0x8000 * 0x80 - 0x8000 * y - 0x80 * x + x * y;
    assert (0x8000 + x) * (0x80 - y) == 0x8000 * 0x80 - 0x8000 * y + 0x80 * x - x * y;
    assert (0x8000 - x) * (0x80 + y) == 0x8000 * 0x80 + 0x8000 * y - 0x80 * x - x * y;
    Positive(0x8000 + x, 0x80 + y);
    Positive(0x8000 - x, 0x80 - y);
    Positive(0x8000 + x, 0x80 - y);
    Positive(0x8000 - x, 0x80 + y);
  }

  // ------------------------------------------------------------------- mixing

  /** Weights that add up to 255 never overflow the sum, and cost at most one step of level. */
  lemma {:induction false} MixRange(a: Byte, b: Byte, t: Byte)
    ensures var sum := Times(a, 0xff - t) + Times(b, t);
      && sum == a * (0xff - t) + b * t
      && 0 <= sum <= 0xff * 0xff
      && Blend(Min(a, b)) <= sum / 0x100 <= Blend(Max(a, b))
  {
    var x: int, y: int, u: int := a, b, t;
    var m, n := Min(a, b), Max(a, b);
    assert x * (0xff - u) + y * u == m * 0xff + (x - m) * (0xff - u) + (y - m) * u;
    assert x * (0xff - u) + y * u == n * 0xff - (n - x) * (0xff - u) - (n - y) * u;
    Positive(x - m, 0xff - u);
    Positive(y - m, u);
    Positive(n - x, 0xff - u);
    Positive(n - y, u);
  }

  function Max(a: int, b: int): int {
    if a < b then b else a
  }

  /** The level a constant signal comes out with: one below, but not below 0. */
  function Blend(level: int): int {
    Max(0, level - 1)
  }

  method U8MixU16(a: Byte, b: Byte, balance: Byte) returns (result: U16, balanceAfter: Byte, r1: Byte)
    ensures result == a * (0xff - balance) + b * balance && balanceAfter == balance && r1 == 0
  {
    MixRange(a, b, balance);
    hide Times, Low, High, Min, Max;
    var r0, c;
    balanceAfter := balance;
    r0, r1, c := Mul(b, balanceAfter);    // mul %3, %2
    var low, high := r0, r1;              // movw %A0, r0
    balanceAfter := Com(balanceAfter);    // com %2
    r0, r1, c := Mul(a, balanceAfter);    // mul %1, %2
    balanceAfter := Com(balanceAfter);    // com %2
    low, c := Add(low, r0);               // add %A0, r0
    high, c := Adc(high, r1, c);          // adc %B0, r1
    r1 := 0;                              // eor r1, r1
    result := Pair(low, high);
  }

  /** The upper byte of the same sum: the exact mix, between its inputs less one step. */
  method U8Mix(a: Byte, b: Byte, balance: Byte) returns (result: Byte, r1: Byte)
    ensures result == (a * (0xff - balance) + b * balance) / 0x100 && r1 == 0
    ensures Blend(Min(a, b)) <= result <= Blend(Max(a, b))
  {
    MixRange(a, b, balance);
    hide Times, Low, Min, Max;
    var sum, after;
    sum, after, r1 := U8MixU16(a, b, balance);
    result := High(sum);
  }

  /** Free gains: exact if and only if the weighted sum fits 16 bits. */
  method U8MixGains(a: Byte, b: Byte, gainA: Byte, gainB: Byte) returns (result: Byte, r1: Byte)
    ensures r1 == 0
    ensures result == (a * gainA + b * gainB) / 0x100 <==> a * gainA + b * gainB < 0x1_0000
  {
    ProductRange(a, gainA);
    ProductRange(b, gainB);
    assert Times(a, gainA) == a * gainA && Times(b, gainB) == b * gainB;
    hide Times, Low, High;
    var r0, c;
    r0, r1, c := Mul(b, gainB);           // mul %3, %4
    var low, high := r0, r1;              // movw %A0, r0
    r0, r1, c := Mul(a, gainA);           // mul %1, %2
    low, c := Add(low, r0);               // add %A0, r0
    high, c := Adc(high, r1, c);          // adc %B0, r1
    r1 := 0;                              // eor r1, r1
    result := high;
  }

  method SignedSum(a: Byte, b: Byte, gainA: Byte, gainB: Byte) returns (low: Byte, high: Byte, r1: Byte)
    ensures Pair(low, high) == (Times(Signed(a), gainA) + Times(Signed(b), gainB)) % 0x1_0000 && r1 == 0
  {
    hide Times, Low, High, Signed;
    var r0, c;
    r0, r1, c := Mulsu(b, gainB);         // mulsu %3, %4
    low, high := r0, r1;                  // movw %A0, r0
    r0, r1, c := Mulsu(a, gainA);         // mulsu %1, %2
    low, c := Add(low, r0);               // add %A0, r0
    high, c := Adc(high, r1, c);          // adc %B0, r1
    r1 := 0;                              // eor r1, r1
  }

  /** Signed samples: exact if and only if the weighted sum fits a signed 16-bit word. */
  method S8Mix(a: S8, b: S8, gainA: Byte, gainB: Byte) returns (result: S8, r1: Byte)
    ensures r1 == 0
    ensures result == (a * gainA + b * gainB) / 0x100 <==> -0x8000 <= a * gainA + b * gainB < 0x8000
  {
    assert Signed(Low(a)) == a && Signed(Low(b)) == b;
    SumRange(a, b, gainA, gainB);
    hide Times, Low, High, Signed, Pair;
    var low, high;
    low, high, r1 := SignedSum(Low(a), Low(b), gainA, gainB);
    result := Signed(high);
    UpperByte(Times(a, gainA) + Times(b, gainB), low, high);
  }

  lemma {:induction false} SumRange(a: S8, b: S8, gainA: Byte, gainB: Byte)
    ensures Times(a, gainA) + Times(b, gainB) == a * gainA + b * gainB
    ensures -0x1_0000 <= Times(a, gainA) + Times(b, gainB) < 0x1_0000
  {
    ProductRange(a, gainA);
    ProductRange(b, gainB);
  }

  lemma {:induction false} UpperByte(sum: int, low: Byte, high: Byte)
    requires -0x1_0000 <= sum < 0x1_0000 && Pair(low, high) == sum % 0x1_0000
    ensures Signed(high) == sum / 0x100 <==> -0x8000 <= sum < 0x8000
  {
    assert sum % 0x1_0000 == if sum >= 0 then sum else sum + 0x1_0000;
    assert sum == low + 0x100 * (high as int) - if sum >= 0 then 0 else 0x1_0000;
    assert sum / 0x100 == high as int - if sum >= 0 then 0 else 0x100;
  }

  /** A 4-bit balance: the weights add up to 15 and the sum fits 12 bits. */
  method U8U4MixU12(a: Byte, b: Byte, balance: Byte) returns (result: U16, balanceAfter: Byte, r1: Byte)
    requires balance < 16
    ensures result == a * (15 - balance) + b * balance <= 15 * 0xff
    ensures balanceAfter == balance && r1 == 0
  {
    NibbleMixRange(a, b, balance);
    hide Times, Low, High;
    var r0, c;
    balanceAfter := balance;
    r0, r1, c := Mul(b, balanceAfter);             // mul %3, %2
    var low, high := r0, r1;                       // movw %A0, r0
    balanceAfter := Com(balanceAfter);             // com %2
    balanceAfter, c := Sub(balanceAfter, 240);     // subi %2, 240
    r0, r1, c := Mul(a, balanceAfter);             // mul %1, %2
    balanceAfter, c := Sub(balanceAfter, 16);      // subi %2, 16
    balanceAfter := Com(balanceAfter);             // com %2
    low, c := Add(low, r0);                        // add %A0, r0
    high, c := Adc(high, r1, c);                   // adc %B0, r1
    r1 := 0;                                       // eor r1, r1
    result := Pair(low, high);
  }

  /** The same sum, then a nibble shuffle that picks its upper eight of twelve bits. */
  method U8U4MixU8(a: Byte, b: Byte, balance: Byte) returns (result: Byte, r1: Byte)
    requires balance < 16
    ensures result == (a * (15 - balance) + b * balance) / 16 && r1 == 0
  {
    var sum, after;
    sum, after, r1 := U8U4MixU12(a, b, balance);
    TwelveBits(sum);
    NibbleShuffle(Low(sum), High(sum));
    ghost var shuffled := Swap(OrNibbles(LowNibble(High(sum)), HighNibble(Low(sum))));
    assert shuffled == sum / 16;
    hide *;
    var high := LowNibble(High(sum));              // andi %B3, 15
    var low := HighNibble(Low(sum));               // andi %A3, 240
    high := OrNibbles(high, low);                  // or %B3, %A3
    result := Swap(high);                          // swap %B3; mov %0, %B3
  }

  lemma {:induction false} TwelveBits(sum: U16)
    requires sum < 0x1000
    ensures High(sum) < 16 && Pair(Low(sum), High(sum)) == sum
  {
  }

  lemma {:induction false} NibbleShuffle(low: Byte, high: Byte)
    requires high < 16
    ensures Swap(OrNibbles(LowNibble(high), HighNibble(low))) == Pair(low, high) / 16
  {
    var h: int, q: int, r: int := high, low / 16, low % 16;
    Nibbles(h, q);
    Nibbles(r, q + 16 * h);
    assert OrNibbles(LowNibble(high), HighNibble(low)) == h + 16 * q;
    assert Pair(low, high) == r + 16 * (q + 16 * h);
    hide OrNibbles, LowNibble, HighNibble, Pair;
  }

  lemma {:induction false} Nibbles(r: int, q: int)
    requires 0 <= r < 16
    ensures (r + 16 * q) % 16 == r && (r + 16 * q) / 16 == q
  {
  }

  lemma {:induction false} NibbleMixRange(a: Byte, b: Byte, t: Byte)
    requires t < 16
    ensures var sum := Times(a, 15 - t) + Times(b, t);
      sum == a * (15 - t) + b * t && 0 <= sum <= 15 * 0xff
    ensures Times(a, 15 - t) >= 0 && Times(b, t) >= 0
  {
    var x: int, y: int, u: int := a, b, t;
    assert x * (15 - u) + y * u == 15 * 0xff - (0xff - x) * (15 - u) - (0xff - y) * u;
    Positive(0xff - x, 15 - u);
    Positive(0xff - y, u);
    Positive(x, 15 - u);
    Positive(y, u);
  }

  method AddPhase(table: U16, phase: U16) returns (r30: Byte, r31: Byte)
    ensures Pair(r30, r31) == Wrap16(table + phase / 0x100)
  {
    Bytes(table);
    Bytes(phase);
    assert High(phase) == phase / 0x100;
    hide Low, High;
    var c;
    r30, r31 := Low(table), High(table);   // movw r30, %A2
    r30, c := Add(r30, High(phase));       // add r30, %B3
    r31, c := Adc(r31, 0, c);              // adc r31, r1
  }

  /** Linear interpolation in a table in program memory; `z` is the pointer register pair. */
  method InterpolateSample(flash: U16 -> Byte, table: U16, phase: U16) returns (result: Byte, r1: Byte)
    ensures r1 == 0
    ensures var at, t := Wrap16(table + phase / 0x100), Low(phase);
      var a, b := flash(at), flash(Wrap16(at as int + 1));
      && result == (a * (0xff - t) + b * t) / 0x100
      && Blend(Min(a, b)) <= result <= Blend(Max(a, b))
  {
    ghost var at := Wrap16(table + phase / 0x100);
    MixRange(flash(at), flash(Wrap16(at as int + 1)), Low(phase));
    hide Times, Min, Max, Low, High, Wrap16;
    var r0, c;
    var r30, r31 := AddPhase(table, phase);
    var work := Low(phase);                    // mov %1, %A3
    var z := Pair(r30, r31);
    result := flash(z);                        // lpm %0, z+
    r1 := flash(Wrap16(z as int + 1));         // lpm r1, z+
    CommuteMix(result, r1, work);
    r0, r1, c := Mul(work, r1);                // mul %1, r1
    r30, r31 := r0, r1;                        // movw r30, r0
    work := Com(work);                         // com %1
    r0, r1, c := Mul(work, result);            // mul %1, %0
    r30, c := Add(r30, r0);                    // add r30, r0
    r31, c := Adc(r31, r1, c);                 // adc r31, r1
    r1 := 0;                                   // eor r1, r1
    result := r31;                             // mov %0, r31
  }

  lemma {:induction false} CommuteMix(a: int, b: int, t: int)
    ensures Times(t, b) == Times(b, t) && Times(0xff - t, a) == Times(a, 0xff - t)
  {
  }

  // ----------------------------------------------------------- 24-bit numbers

  datatype U24 = U24(integral: U16, fractional: Byte)

  function Value(x: U24): (v: nat)
    ensures v < 0x100_0000
  {
    0x100 * (x.integral as int) + x.fractional
  }

  lemma {:induction false} ValueOfBytes(frac: Byte, low: Byte, high: Byte)
    ensures Value(U24(Pair(low, high), frac)) == frac + 0x100 * (low as int) + 0x1_0000 * (high as int)
  {
  }

  /** Sum with the carry out of bit 23; `r1` is the zero register. */
  method U24AddC(a: U24, b: U24) returns (result: U24, carry: Byte)
    ensures Value(result) + 0x100_0000 * (carry as int) == Value(a) + Value(b) && carry <= 1
  {
    Bytes(a.integral);
    Bytes(b.integral);
    hide Low, High;
    var c;
    carry := 0;
    var frac, low, high := a.fractional, Low(a.integral), High(a.integral);
    frac, c := Add(frac, b.fractional);          // add %0, %6
    low, c := Adc(low, Low(b.integral), c);      // adc %A1, %A7
    high, c := Adc(high, High(b.integral), c);   // adc %B1, %B7
    carry, c := Adc(carry, 0, c);                // adc %2, r1
    result := U24(Pair(low, high), frac);
    ValueOfBytes(frac, low, high);
  }

  method U24Add(a: U24, b: U24) returns (result: U24)
    ensures Value(result) == (Value(a) + Value(b)) % 0x100_0000
  {
    Bytes(a.integral);
    Bytes(b.integral);
    hide Low, High;
    var c;
    var frac, low, high := a.fractional, Low(a.integral), High(a.integral);
    frac, c := Add(frac, b.fractional);          // add %0, %4
    low, c := Adc(low, Low(b.integral), c);      // adc %A1, %A5
    high, c := Adc(high, High(b.integral), c);   // adc %B1, %B5
    result := U24(Pair(low, high), frac);
    ValueOfBytes(frac, low, high);
    Wrap24Is(Value(a) + Value(b), Value(result), Bit(c));
  }

  method U24Sub(a: U24, b: U24) returns (result: U24)
    ensures Value(result) == (Value(a) - Value(b)) % 0x100_0000
  {
    Bytes(a.integral);
    Bytes(b.integral);
    hide Low, High;
    var c;
    var frac, low, high := a.fractional, Low(a.integral), High(a.integral);
    frac, c := Sub(frac, b.fractional);          // sub %0, %4
    low, c := Sbc(low, Low(b.integral), c);      // sbc %A1, %A5
    high, c := Sbc(high, High(b.integral), c);   // sbc %B1, %B5
    result := U24(Pair(low, high), frac);
    ValueOfBytes(frac, low, high);
    Wrap24Is(Value(a) - Value(b), Value(result), -Bit(c));
  }

  lemma {:induction false} Wrap24Is(s: int, v: nat, k: int)
    requires s == v + 0x100_0000 * k && v < 0x100_0000
    ensures v == s % 0x100_0000
  {
  }

  /** Subtraction undoes addition, whatever overflowed in between. */
  method AddThenSub(a: U24, b: U24) returns (result: U24)
    ensures result == a
  {
    hide Value;
    var sum := U24Add(a, b);
    result := U24Sub(sum, b);
    ghost var k := (Value(a) + Value(b)) / 0x100_0000;
    assert Value(sum) - Value(b) == Value(a) - 0x100_0000 * k;
    Wrap24Is(Value(sum) - Value(b), Value(a), -k);
    ValueIsInjective(result, a);
  }

  lemma {:induction false} ValueIsInjective(x: U24, y: U24)
    requires Value(x) == Value(y)
    ensures x == y
  {
  }

  function Total(increments: seq<U24>): nat {
    if increments == [] then 0 else Total(increments[..|increments| - 1]) + Value(increments[|increments| - 1])
  }

  /** A phase accumulator loses nothing: what leaves the 24 bits is counted by the carries. */
  method Accumulate(start: U24, increments: seq<U24>) returns (phase: U24, carries: nat)
    ensures Value(start) + Total(increments) == Value(phase) + 0x100_0000 * carries
  {
    phase, carries := start, 0;
    for i := 0 to |increments|
      invariant Value(start) + Total(increments[..i]) == Value(phase) + 0x100_0000 * carries
    {
      assert increments[..i + 1][..i] == increments[..i];
      var carry;
      phase, carry := U24AddC(phase, increments[i]);
      carries := carries + carry;
    }
    assert increments[..|increments|] == increments;
  }

  // ------------------------------------------------------------------ clipping

  /** The branches test the sign and zero of the upper byte, as `or %B1, %B1` set them. */
  method S16ClipU8(value: S16) returns (result: Byte)
    ensures result == if value < 0 then 0 else if value > 0xff then 0xff else value
  {
    var low, high := Low(value), High(value);
    result := low;                               // mov %0, %A1
    var negative, zero := high >= 0x80, high == 0;  // or %B1, %B1
    if negative {                                // brpl .+4
      result := 0;                               // ldi %0, 0; rjmp .+4
    } else if !zero {                            // breq .+2
      result := 0xff;                            // ldi %0, 255
    }
  }

  /** Clips correctly if and only if adding 128 does not leave the 16-bit range. */
  method S16ClipS8(value: S16) returns (result: S8)
    ensures (result == if value < -0x80 then -0x80 else if value > 0x7f then 0x7f else value)
      <==> value + 0x80 < 0x8000
    ensures value + 0x80 >= 0x8000 ==> result == -0x80
  {
    var shifted: S16 := SignedPair(Low(value as int + 0x80), High(value as int + 0x80));
    var clipped := S16ClipU8(shifted);
    result := Signed(Low(clipped as int + 0x80));
  }

  /** Two doublings move six bits out: exact if and only if the value has 14 bits. */
  method U14ShiftRight6(value: U16) returns (result: Byte)
    ensures result == value / 0x40 <==> value < 0x4000
  {
    Bytes(value);
    var a, b := Low(value), High(value);
    hide Low, High;
    var c;
    a, c := Add(a, a);                           // add %1, %1
    b, c := Adc(b, b, c);                        // adc %2, %2
    a, c := Add(a, a);                           // add %1, %1
    b, c := Adc(b, b, c);                        // adc %2, %2
    result := b;
  }
}
