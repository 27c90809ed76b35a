/** The AES-256 forward cipher of src/kernel/aes256.c, and the inverse cipher that
    undoes it. The kernel never decrypts a block; the inverse is written here
    (sections 5.3.1 to 5.3.3 of FIPS 197) because it is what makes the cipher
    injective, which is what counter mode relies on. */
module Aes256 {
  import opened Bytes

  const ROUNDS := 14
  const BLOCK := 16
  const KEY_BYTES := 32
  const SCHEDULE_BYTES := 240

  // ----- the substitution box, a row of sixteen entries at a time -----

  function Row(c: int, v0: byte, v1: byte, v2: byte, v3: byte, v4: byte, v5: byte, v6: byte, v7: byte,
               v8: byte, v9: byte, v10: byte, v11: byte, v12: byte, v13: byte, v14: byte, v15: byte): byte
  {
    if c < 8 then (if c < 4 then (if c < 2 then (if c < 1 then v0 else v1) else (if c < 3 then v2 else v3))
                   else (if c < 6 then (if c < 5 then v4 else v5) else (if c < 7 then v6 else v7)))
    else (if c < 12 then (if c < 10 then (if c < 9 then v8 else v9) else (if c < 11 then v10 else v11))
          else (if c < 14 then (if c < 13 then v12 else v13) else (if c < 15 then v14 else v15)))
  }

  function SBox(b: byte): byte {
    if b < 0x80 then
      if b < 0x40 then
        if b < 0x20 then
          if b < 0x10 then
            Row(b - 0x00, 0x63, 0x7c, 0x77, 0x7b, 0xf2, 0x6b, 0x6f, 0xc5,
                0x30, 0x01, 0x67, 0x2b, 0xfe, 0xd7, 0xab, 0x76)
          else
            Row(b - 0x10, 0xca, 0x82, 0xc9, 0x7d, 0xfa, 0x59, 0x47, 0xf0,
                0xad, 0xd4, 0xa2, 0xaf, 0x9c, 0xa4, 0x72, 0xc0)
        else
          if b < 0x30 then
            Row(b - 0x20, 0xb7, 0xfd, 0x93, 0x26, 0x36, 0x3f, 0xf7, 0xcc,
                0x34, 0xa5, 0xe5, 0xf1, 0x71, 0xd8, 0x31, 0x15)
          else
            Row(b - 0x30, 0x04, 0xc7, 0x23, 0xc3, 0x18, 0x96, 0x05, 0x9a,
                0x07, 0x12, 0x80, 0xe2, 0xeb, 0x27, 0xb2, 0x75)
      else
        if b < 0x60 then
          if b < 0x50 then
            Row(b - 0x40, 0x09, 0x83, 0x2c, 0x1a, 0x1b, 0x6e, 0x5a, 0xa0,
                0x52, 0x3b, 0xd6, 0xb3, 0x29, 0xe3, 0x2f, 0x84)
          else
            Row(b - 0x50, 0x53, 0xd1, 0x00, 0xed, 0x20, 0xfc, 0xb1, 0x5b,
                0x6a, 0xcb, 0xbe, 0x39, 0x4a, 0x4c, 0x58, 0xcf)
        else
          if b < 0x70 then
            Row(b - 0x60, 0xd0, 0xef, 0xaa, 0xfb, 0x43, 0x4d, 0x33, 0x85,
                0x45, 0xf9, 0x02, 0x7f, 0x50, 0x3c, 0x9f, 0xa8)
          else
            Row(b - 0x70, 0x51, 0xa3, 0x40, 0x8f, 0x92, 0x9d, 0x38, 0xf5,
                0xbc, 0xb6, 0xda, 0x21, 0x10, 0xff, 0xf3, 0xd2)
    else
      if b < 0xc0 then
        if b < 0xa0 then
          if b < 0x90 then
            Row(b - 0x80, 0xcd, 0x0c, 0x13, 0xec, 0x5f, 0x97, 0x44, 0x17,
                0xc4, 0xa7, 0x7e, 0x3d, 0x64, 0x5d, 0x19, 0x73)
          else
            Row(b - 0x90, 0x60, 0x81, 0x4f, 0xdc, 0x22, 0x2a, 0x90, 0x88,
                0x46, 0xee, 0xb8, 0x14, 0xde, 0x5e, 0x0b, 0xdb)
        else
          if b < 0xb0 then
            Row(b - 0xa0, 0xe0, 0x32, 0x3a, 0x0a, 0x49, 0x06, 0x24, 0x5c,
                0xc2, 0xd3, 0xac, 0x62, 0x91, 0x95, 0xe4, 0x79)
          else
            Row(b - 0xb0, 0xe7, 0xc8, 0x37, 0x6d, 0x8d, 0xd5, 0x4e, 0xa9,
                0x6c, 0x56, 0xf4, 0xea, 0x65, 0x7a, 0xae, 0x08)
      else
        if b < 0xe0 then
          if b < 0xd0 then
            Row(b - 0xc0, 0xba, 0x78, 0x25, 0x2e, 0x1c, 0xa6, 0xb4, 0xc6,
                0xe8, 0xdd, 0x74, 0x1f, 0x4b, 0xbd, 0x8b, 0x8a)
          else
            Row(b - 0xd0, 0x70, 0x3e, 0xb5, 0x66, 0x48, 0x03, 0xf6, 0x0e,
                0x61, 0x35, 0x57, 0xb9, 0x86, 0xc1, 0x1d, 0x9e)
        else
          if b < 0xf0 then
            Row(b - 0xe0, 0xe1, 0xf8, 0x98, 0x11, 0x69, 0xd9, 0x8e, 0x94,
                0x9b, 0x1e, 0x87, 0xe9, 0xce, 0x55, 0x28, 0xdf)
          else
            Row(b - 0xf0, 0x8c, 0xa1, 0x89, 0x0d, 0xbf, 0xe6, 0x42, 0x68,
                0x41, 0x99, 0x2d, 0x0f, 0xb0, 0x54, 0xbb, 0x16)
  }

  function InvSBox(b: byte): byte {
    if b < 0x80 then
      if b < 0x40 then
        if b < 0x20 then
          if b < 0x10 then
            Row(b - 0x00, 0x52, 0x09, 0x6a, 0xd5, 0x30, 0x36, 0xa5, 0x38,
                0xbf, 0x40, 0xa3, 0x9e, 0x81, 0xf3, 0xd7, 0xfb)
          else
            Row(b - 0x10, 0x7c, 0xe3, 0x39, 0x82, 0x9b, 0x2f, 0xff, 0x87,
                0x34, 0x8e, 0x43, 0x44, 0xc4, 0xde, 0xe9, 0xcb)
        else
          if b < 0x30 then
            Row(b - 0x20, 0x54, 0x7b, 0x94, 0x32, 0xa6, 0xc2, 0x23, 0x3d,
                0xee, 0x4c, 0x95, 0x0b, 0x42, 0xfa, 0xc3, 0x4e)
          else
            Row(b - 0x30, 0x08, 0x2e, 0xa1, 0x66, 0x28, 0xd9, 0x24, 0xb2,
                0x76, 0x5b, 0xa2, 0x49, 0x6d, 0x8b, 0xd1, 0x25)
      else
        if b < 0x60 then
          if b < 0x50 then
            Row(b - 0x40, 0x72, 0xf8, 0xf6, 0x64, 0x86, 0x68, 0x98, 0x16,
                0xd4, 0xa4, 0x5c, 0xcc, 0x5d, 0x65, 0xb6, 0x92)
          else
            Row(b - 0x50, 0x6c, 0x70, 0x48, 0x50, 0xfd, 0xed, 0xb9, 0xda,
                0x5e, 0x15, 0x46, 0x57, 0xa7, 0x8d, 0x9d, 0x84)
        else
          if b < 0x70 then
            Row(b - 0x60, 0x90, 0xd8, 0xab, 0x00, 0x8c, 0xbc, 0xd3, 0x0a,
                0xf7, 0xe4, 0x58, 0x05, 0xb8, 0xb3, 0x45, 0x06)
          else
            Row(b - 0x70, 0xd0, 0x2c, 0x1e, 0x8f, 0xca, 0x3f, 0x0f, 0x02,
                0xc1, 0xaf, 0xbd, 0x03, 0x01, 0x13, 0x8a, 0x6b)
    else
      if b < 0xc0 then
        if b < 0xa0 then
          if b < 0x90 then
            Row(b - 0x80, 0x3a, 0x91, 0x11, 0x41, 0x4f, 0x67, 0xdc, 0xea,
                0x97, 0xf2, 0xcf, 0xce, 0xf0, 0xb4, 0xe6, 0x73)
          else
            Row(b - 0x90, 0x96, 0xac, 0x74, 0x22, 0xe7, 0xad, 0x35, 0x85,
                0xe2, 0xf9, 0x37, 0xe8, 0x1c, 0x75, 0xdf, 0x6e)
        else
          if b < 0xb0 then
            Row(b - 0xa0, 0x47, 0xf1, 0x1a, 0x71, 0x1d, 0x29, 0xc5, 0x89,
                0x6f, 0xb7, 0x62, 0x0e, 0xaa, 0x18, 0xbe, 0x1b)
          else
            Row(b - 0xb0, 0xfc, 0x56, 0x3e, 0x4b, 0xc6, 0xd2, 0x79, 0x20,
                0x9a, 0xdb, 0xc0, 0xfe, 0x78, 0xcd, 0x5a, 0xf4)
      else
        if b < 0xe0 then
          if b < 0xd0 then
            Row(b - 0xc0, 0x1f, 0xdd, 0xa8, 0x33, 0x88, 0x07, 0xc7, 0x31,
                0xb1, 0x12, 0x10, 0x59, 0x27, 0x80, 0xec, 0x5f)
          else
            Row(b - 0xd0, 0x60, 0x51, 0x7f, 0xa9, 0x19, 0xb5, 0x4a, 0x0d,
                0x2d, 0xe5, 0x7a, 0x9f, 0x93, 0xc9, 0x9c, 0xef)
        else
          if b < 0xf0 then
            Row(b - 0xe0, 0xa0, 0xe0, 0x3b, 0x4d, 0xae, 0x2a, 0xf5, 0xb0,
                0xc8, 0xeb, 0xbb, 0x3c, 0x83, 0x53, 0x99, 0x61)
          else
            Row(b - 0xf0, 0x17, 0x2b, 0x04, 0x7e, 0xba, 0x77, 0xd6, 0x26,
                0xe1, 0x69, 0x14, 0x63, 0x55, 0x21, 0x0c, 0x7d)
  }

  /** Figure 14 of FIPS 197 inverts figure 7: the substitution is a permutation. */
  lemma SBoxInverts(b: byte)
    ensures InvSBox(SBox(b)) == b
  {
    if b < 0x40 { SBoxInverts0(b); }
    else if b < 0x80 { SBoxInverts1(b); }
    else if b < 0xc0 { SBoxInverts2(b); }
    else { SBoxInverts3(b); }
  }

  lemma SBoxInverts0(b: byte)
    requires b < 0x40
    ensures InvSBox(SBox(b)) == b
  {
  }

  lemma SBoxInverts1(b: byte)
    requires 0x40 <= b < 0x80
    ensures InvSBox(SBox(b)) == b
  {
  }

  lemma SBoxInverts2(b: byte)
    requires 0x80 <= b < 0xc0
    ensures InvSBox(SBox(b)) == b
  {
  }

  lemma SBoxInverts3(b: byte)
    requires 0xc0 <= b
    ensures InvSBox(SBox(b)) == b
  {
  }

  // ----- multiplication in GF(2^8) -----

  /** (uint8_t)(a << 1) */
  function ShiftLeft(a: byte): byte {
    if a < 0x80 then 2 * a else 2 * a - 0x100
  }

  /** a * x modulo x^8 + x^4 + x^3 + x + 1. */
  function XTime(a: byte): byte {
    if a < 0x80 then ShiftLeft(a) else XorByte(ShiftLeft(a), 0x1b)
  }

  /** The sum of a * x^i over the digits i set in m (section 4.2 of FIPS 197). The
      mask may be any polynomial, reduced or not. */
  function Times(a: byte, m: nat): byte
    decreases m
  {
    if m == 0 then 0
    else XorByte(if m % 2 == 1 then a else 0, Times(XTime(a), m / 2))
  }

  lemma TimesZero(a: byte)
    ensures Times(a, 0) == 0
  {
  }

  lemma TimesStep(p: byte, a: byte, b: byte)
    ensures Xor(p, Times(a, b)) == Xor(if b % 2 == 1 then XorByte(p, a) else p, Times(XTime(a), b / 2))
  {
    ghost var rest := Times(XTime(a), b / 2);
    XorZero(rest);
    XorAssociates(p, a, rest);
  }

  /** The shift-and-add loop. */
  method GMul(a: byte, b: byte) returns (p: byte)
    ensures p == Times(a, b)
  {
    p := 0;
    var a': byte, b': byte := a, b;
    XorZero(Times(a, b));
    hide Xor, Times;
    for i := 0 to 8
      invariant 0 <= b' < Pow2(8 - i)
      invariant Xor(p, Times(a', b')) == Times(a, b)
    {
      ghost var next := XTime(a');
      TimesStep(p, a', b');
      if b' % 2 == 1 {
        p := XorByte(p, a');
      }
      var high := a' >= 0x80;
      a' := ShiftLeft(a');
      if high {
        a' := XorByte(a', 0x1b);
      }
      b' := b' / 2;
      assert a' == next;
    }
    TimesZero(a');
    XorZero(p);
  }

  /** Product of two masks without reduction. */
  function CarrylessTimes(m: nat, n: nat): nat
    decreases n
  {
    if n == 0 then 0
    else Xor(if n % 2 == 1 then m else 0, 2 * CarrylessTimes(m, n / 2))
  }

  lemma XorSwapInner(a: nat, b: nat, c: nat, d: nat)
    ensures Xor(Xor(a, b), Xor(c, d)) == Xor(Xor(a, c), Xor(b, d))
  {
    hide Xor;
    XorAssociates(a, b, Xor(c, d));
    XorAssociates(b, c, d);
    XorCommutes(b, c);
    XorAssociates(c, b, d);
    XorAssociates(a, c, Xor(b, d));
  }

  lemma XTimeLinear(a: byte, b: byte)
    ensures XTime(XorByte(a, b)) == XorByte(XTime(a), XTime(b))
  {
    // Doubling distributes over xor; the reduction adds 0x11b for each high digit.
    XorTopDigit(a, b);
    Doubling(a, b);
    XTimeIsReducedDouble(a);
    XTimeIsReducedDouble(b);
    XTimeIsReducedDouble(XorByte(a, b));
    hide XTime, Xor, XorByte;
    var ra, rb := if a >= 0x80 then 0x11b else 0, if b >= 0x80 then 0x11b else 0;
    XorSwapInner(2 * a, ra, 2 * b, rb);
    XorSelf(0x11b);
    XorZero(0x11b);
    XorZero(0);
  }

  lemma Doubling(a: nat, b: nat)
    ensures Xor(2 * a, 2 * b) == 2 * Xor(a, b)
  {
    hide Xor;
    XorStep(2 * a, 2 * b);
    assert 2 * a / 2 == a && 2 * b / 2 == b && (2 * a + 2 * b) % 2 == 0;
  }

  lemma {:induction false} XorTopDigit(a: byte, b: byte)
    ensures (Xor(a, b) >= 0x80) == ((a >= 0x80) != (b >= 0x80))
  {
    TopDigit(a, b, 7);
  }

  lemma {:induction false} TopDigit(a: nat, b: nat, n: nat)
    requires a < Pow2(n + 1) && b < Pow2(n + 1)
    ensures (Xor(a, b) >= Pow2(n)) == ((a >= Pow2(n)) != (b >= Pow2(n)))
  {
    if n > 0 {
      TopDigit(a / 2, b / 2, n - 1);
      XorStep(a, b);
    }
  }

  lemma XTimeIsReducedDouble(a: byte)
    ensures XTime(a) == Xor(2 * a, if a >= 0x80 then 0x11b else 0)
  {
    if a < 0x80 {
      XorZero(2 * a);
    } else {
      TopDigitCancels(2 * a - 0x100, 0x1b, 8);
    }
  }

  lemma {:induction false} TopDigitCancels(a: nat, b: nat, n: nat)
    requires a < Pow2(n) && b < Pow2(n)
    ensures Xor(a + Pow2(n), b + Pow2(n)) == Xor(a, b)
  {
    if n > 0 {
      TopDigitCancels(a / 2, b / 2, n - 1);
      ghost var a', b' := a + Pow2(n), b + Pow2(n);
      assert a' / 2 == a / 2 + Pow2(n - 1) && b' / 2 == b / 2 + Pow2(n - 1);
      XorStep(a', b');
      XorStep(a, b);
      assert (a' + b') % 2 == (a + b) % 2;
      hide Xor;
      HalvesEqual(Xor(a', b'), Xor(a, b));
    }
  }

  // ----- linearity in each factor -----

  lemma {:induction false} TimesAddsLeft(a: byte, b: byte, m: nat)
    ensures Times(XorByte(a, b), m) == XorByte(Times(a, m), Times(b, m))
    decreases m
  {
    if m > 0 {
      XTimeLinear(a, b);
      TimesAddsLeft(XTime(a), XTime(b), m / 2);
      var ta, tb := Times(XTime(a), m / 2), Times(XTime(b), m / 2);
      if m % 2 == 1 {
        XorSwapInner(a, b, ta, tb);
      } else {
        XorZero(ta); XorZero(tb); XorZero(XorByte(ta, tb));
      }
    }
  }

  lemma {:induction false} TimesAddsRight(a: byte, m: nat, n: nat)
    ensures Times(a, Xor(m, n)) == XorByte(Times(a, m), Times(a, n))
    decreases m + n
  {
    XorStep(m, n);
    if m == 0 {
      XorZero(n); XorZero(Times(a, n));
    } else if n == 0 {
      XorZero(m); XorZero(Times(a, m));
    } else {
      TimesAddsRight(XTime(a), m / 2, n / 2);
      TimesUnfolds(a, m); TimesUnfolds(a, n); TimesUnfolds(a, Xor(m, n));
      hide Times, Xor, XorByte;
      var tm, tn := Times(XTime(a), m / 2), Times(XTime(a), n / 2);
      XorSwapInner(Digit(a, m), tm, Digit(a, n), tn);
      DigitsAdd(a, m, n);
    }
  }

  /** What the low digit of a mask contributes. */
  function Digit(a: byte, m: nat): byte {
    if m % 2 == 1 then a else 0
  }

  lemma DigitsAdd(a: byte, m: nat, n: nat)
    ensures Digit(a, Xor(m, n)) == Xor(Digit(a, m), Digit(a, n))
  {
    XorStep(m, n);
    OddSum(m, n);
    XorSelf(a); XorZero(a); XorZero(0);
    hide Xor;
  }

  lemma TimesUnfolds(a: byte, m: nat)
    ensures Times(a, m) == XorByte(Digit(a, m), Times(XTime(a), m / 2))
  {
    if m == 0 {
      XorZero(0);
    }
  }

  lemma TimesDouble(a: byte, m: nat)
    ensures Times(a, 2 * m) == Times(XTime(a), m)
  {
    TimesUnfolds(a, 2 * m);
    XorZero(Times(XTime(a), m));
  }

  lemma {:induction false} XTimeOfTimes(a: byte, m: nat)
    ensures XTime(Times(a, m)) == Times(a, 2 * m)
    decreases m
  {
    TimesDouble(a, m);
    if m > 0 {
      var rest := Times(XTime(a), m / 2);
      XTimeOfTimes(XTime(a), m / 2);
      TimesDouble(XTime(a), m / 2);
      TimesUnfolds(XTime(a), m);
      XTimeLinear(Digit(a, m), rest);
    }
  }

  /** Two successive products are one product by the product of the masks. */
  lemma {:induction false} TimesTimes(a: byte, m: nat, n: nat)
    ensures Times(Times(a, m), n) == Times(a, CarrylessTimes(m, n))
    decreases n
  {
    if n > 0 {
      var rest := CarrylessTimes(m, n / 2);
      XTimeOfTimes(a, m);
      TimesTimes(a, 2 * m, n / 2);
      CarrylessDouble(m, n / 2);
      TimesAddsRight(a, if n % 2 == 1 then m else 0, 2 * rest);
    }
  }

  lemma {:induction false} CarrylessDouble(m: nat, n: nat)
    ensures CarrylessTimes(2 * m, n) == 2 * CarrylessTimes(m, n)
    decreases n
  {
    if n > 0 {
      CarrylessDouble(m, n / 2);
      Doubling(if n % 2 == 1 then m else 0, 2 * CarrylessTimes(m, n / 2));
    }
  }

  // ----- columns: the matrix of section 5.1.3 and its inverse (section 5.3.3) -----

  datatype Vec = Vec(x0: nat, x1: nat, x2: nat, x3: nat)
  datatype Column = Column(a0: byte, a1: byte, a2: byte, a3: byte)

  function Dot(a: Column, m: Vec): byte {
    XorByte(XorByte(Times(a.a0, m.x0), Times(a.a1, m.x1)), XorByte(Times(a.a2, m.x2), Times(a.a3, m.x3)))
  }

  function AddVec(m: Vec, n: Vec): Vec {
    Vec(Xor(m.x0, n.x0), Xor(m.x1, n.x1), Xor(m.x2, n.x2), Xor(m.x3, n.x3))
  }

  function Scale(m: Vec, n: nat): Vec {
    Vec(CarrylessTimes(m.x0, n), CarrylessTimes(m.x1, n), CarrylessTimes(m.x2, n), CarrylessTimes(m.x3, n))
  }

  lemma DotAdds(a: Column, m: Vec, n: Vec)
    ensures XorByte(Dot(a, m), Dot(a, n)) == Dot(a, AddVec(m, n))
  {
    TimesAddsRight(a.a0, m.x0, n.x0);
    TimesAddsRight(a.a1, m.x1, n.x1);
    TimesAddsRight(a.a2, m.x2, n.x2);
    TimesAddsRight(a.a3, m.x3, n.x3);
    hide Times, Xor;
    XorSwapInner(XorByte(Times(a.a0, m.x0), Times(a.a1, m.x1)), XorByte(Times(a.a2, m.x2), Times(a.a3, m.x3)),
                 XorByte(Times(a.a0, n.x0), Times(a.a1, n.x1)), XorByte(Times(a.a2, n.x2), Times(a.a3, n.x3)));
    XorSwapInner(Times(a.a0, m.x0), Times(a.a1, m.x1), Times(a.a0, n.x0), Times(a.a1, n.x1));
    XorSwapInner(Times(a.a2, m.x2), Times(a.a3, m.x3), Times(a.a2, n.x2), Times(a.a3, n.x3));
  }

  lemma DotScales(a: Column, m: Vec, n: nat)
    ensures Times(Dot(a, m), n) == Dot(a, Scale(m, n))
  {
    TimesTimes(a.a0, m.x0, n);
    TimesTimes(a.a1, m.x1, n);
    TimesTimes(a.a2, m.x2, n);
    TimesTimes(a.a3, m.x3, n);
    hide Xor, CarrylessTimes;
    TimesAddsLeft(XorByte(Times(a.a0, m.x0), Times(a.a1, m.x1)), XorByte(Times(a.a2, m.x2), Times(a.a3, m.x3)), n);
    TimesAddsLeft(Times(a.a0, m.x0), Times(a.a1, m.x1), n);
    TimesAddsLeft(Times(a.a2, m.x2), Times(a.a3, m.x3), n);
  }

  function Rotate(a: Column): Column {
    Column(a.a1, a.a2, a.a3, a.a0)
  }

  /** Multiplication of the column, as a polynomial, by a fixed one modulo x^4 + 1
      (section 4.3 of FIPS 197): each row is the row above with the masks moved on. */
  function Circulant(a: Column, m: Vec): Column {
    Column(Dot(a, m), Dot(Rotate(a), m), Dot(Rotate(Rotate(a)), m), Dot(Rotate(Rotate(Rotate(a))), m))
  }

  function MixColumn(a: Column): Column { Circulant(a, Vec(2, 3, 1, 1)) }

  function InvMixColumn(a: Column): Column { Circulant(a, Vec(14, 11, 13, 9)) }

  lemma DotRotates(a: Column, m: Vec)
    ensures Dot(Rotate(a), m) == Dot(a, Vec(m.x3, m.x0, m.x1, m.x2))
  {
    var p, q, r, s := Times(a.a1, m.x0), Times(a.a2, m.x1), Times(a.a3, m.x2), Times(a.a0, m.x3);
    hide Xor, Times;
    XorAssociates(p, q, XorByte(r, s));
    XorAssociates(q, r, s);
    XorCommutes(XorByte(q, r), s);
    XorAssociates(p, s, XorByte(q, r));
    XorCommutes(p, s);
  }

  /** The first row of the inverse matrix times the matrix. */
  function FirstRow(): Vec {
    AddVec(AddVec(Scale(Vec(2, 3, 1, 1), 14), Scale(Vec(1, 2, 3, 1), 11)),
           AddVec(Scale(Vec(1, 1, 2, 3), 13), Scale(Vec(3, 1, 1, 2), 9)))
  }

  lemma FirstRowOfMix(a: Column)
    ensures Dot(MixColumn(a), Vec(14, 11, 13, 9)) == Dot(a, FirstRow())
  {
    var m0, m1, m2, m3 := Vec(2, 3, 1, 1), Vec(1, 2, 3, 1), Vec(1, 1, 2, 3), Vec(3, 1, 1, 2);
    DotRotates(a, m0);
    DotRotates(Rotate(a), m0);
    DotRotates(a, m1);
    DotRotates(Rotate(Rotate(a)), m0);
    DotRotates(Rotate(a), m1);
    DotRotates(a, m2);
    DotScales(a, m0, 14);
    DotScales(a, m1, 11);
    DotScales(a, m2, 13);
    DotScales(a, m3, 9);
    DotAdds(a, Scale(m0, 14), Scale(m1, 11));
    DotAdds(a, Scale(m2, 13), Scale(m3, 9));
    DotAdds(a, AddVec(Scale(m0, 14), Scale(m1, 11)), AddVec(Scale(m2, 13), Scale(m3, 9)));
    hide Scale, AddVec, Times, Xor;
  }

  lemma {:induction false} CarrylessAdds(m: nat, m': nat, n: nat)
    ensures CarrylessTimes(Xor(m, m'), n) == Xor(CarrylessTimes(m, n), CarrylessTimes(m', n))
    decreases n
  {
    if n == 0 {
      XorZero(0);
    } else {
      var r, r' := CarrylessTimes(m, n / 2), CarrylessTimes(m', n / 2);
      CarrylessAdds(m, m', n / 2);
      Doubling(r, r');
      XorZero(0);
      hide Xor;
      if n % 2 == 1 {
        XorSwapInner(m, 2 * r, m', 2 * r');
      } else {
        XorSwapInner(0, 2 * r, 0, 2 * r');
      }
    }
  }

  lemma {:induction false} CarrylessOne(n: nat)
    ensures CarrylessTimes(1, n) == n
  {
    if n > 0 {
      CarrylessOne(n / 2);
      XorLowDigit(n);
    }
  }

  lemma XorLowDigit(n: nat)
    ensures Xor(n % 2, 2 * (n / 2)) == n
  {
    XorZero(n / 2);
  }

  /** The products that occur: by x^0, by x and by x + 1. */
  lemma SmallProducts(n: nat)
    ensures CarrylessTimes(1, n) == n && CarrylessTimes(2, n) == 2 * n && CarrylessTimes(3, n) == Xor(n, 2 * n)
  {
    CarrylessOne(n);
    CarrylessDouble(1, n);
    CarrylessAdds(1, 2, n);
    assert Xor(1, 2) == 3;
  }

  // The sums that occur, each line digit by digit from the top.

  lemma SmallSums0()
    ensures Xor(14, 28) == 18 && Xor(11, 22) == 29
  {
    assert Xor(0, 1) == 1 && Xor(1, 3) == 2 && Xor(3, 7) == 4 && Xor(7, 14) == 9 && Xor(14, 28) == 18;
    assert Xor(1, 2) == 3 && Xor(2, 5) == 7 && Xor(5, 11) == 14 && Xor(11, 22) == 29;
  }

  lemma SmallSums1()
    ensures Xor(13, 26) == 23 && Xor(9, 18) == 27
  {
    assert Xor(0, 1) == 1 && Xor(1, 3) == 2 && Xor(3, 6) == 5 && Xor(6, 13) == 11 && Xor(13, 26) == 23;
    assert Xor(1, 2) == 3 && Xor(2, 4) == 6 && Xor(4, 9) == 13 && Xor(9, 18) == 27;
  }

  lemma SmallSums2()
    ensures Xor(28, 11) == 23 && Xor(13, 27) == 22 && Xor(23, 22) == 1
  {
    assert Xor(1, 0) == 1 && Xor(3, 1) == 2 && Xor(7, 2) == 5 && Xor(14, 5) == 11 && Xor(28, 11) == 23;
    assert Xor(0, 1) == 1 && Xor(1, 3) == 2 && Xor(3, 6) == 5 && Xor(6, 13) == 11 && Xor(13, 27) == 22;
    assert Xor(1, 1) == 0 && Xor(2, 2) == 0 && Xor(5, 5) == 0 && Xor(11, 11) == 0 && Xor(23, 22) == 1;
  }

  lemma SmallSums3()
    ensures Xor(18, 22) == 4 && Xor(13, 9) == 4 && Xor(4, 4) == 0
  {
    assert Xor(1, 1) == 0 && Xor(2, 2) == 0 && Xor(4, 5) == 1 && Xor(9, 11) == 2 && Xor(18, 22) == 4;
    assert Xor(3, 2) == 1 && Xor(6, 4) == 2 && Xor(13, 9) == 4;
    assert Xor(4, 4) == 0;
  }

  lemma SmallSums4()
    ensures Xor(14, 29) == 19 && Xor(26, 9) == 19 && Xor(19, 19) == 0
  {
    assert Xor(0, 1) == 1 && Xor(1, 3) == 2 && Xor(3, 7) == 4 && Xor(7, 14) == 9 && Xor(14, 29) == 19;
    assert Xor(1, 0) == 1 && Xor(3, 1) == 2 && Xor(6, 2) == 4 && Xor(13, 4) == 9 && Xor(26, 9) == 19;
    assert Xor(1, 1) == 0 && Xor(2, 2) == 0 && Xor(4, 4) == 0 && Xor(9, 9) == 0 && Xor(19, 19) == 0;
  }

  lemma SmallSums5()
    ensures Xor(14, 11) == 5 && Xor(23, 18) == 5 && Xor(5, 5) == 0
  {
    assert Xor(1, 1) == 0 && Xor(3, 2) == 1 && Xor(7, 5) == 2 && Xor(14, 11) == 5;
    assert Xor(2, 2) == 0 && Xor(5, 4) == 1 && Xor(11, 9) == 2 && Xor(23, 18) == 5;
    assert Xor(5, 5) == 0;
  }

  /** The first row of the product of the two matrices; no reduction is needed. */
  lemma FirstRowIsUnit()
    ensures FirstRow() == Vec(1, 0, 0, 0)
  {
    SmallProducts(14); SmallProducts(11); SmallProducts(13); SmallProducts(9);
    SmallSums0(); SmallSums1(); SmallSums2(); SmallSums3(); SmallSums4(); SmallSums5();
    hide CarrylessTimes, Xor;
  }

  lemma TimesOne(a: byte)
    ensures Times(a, 1) == a && Times(a, 0) == 0
  {
    XorZero(a);
  }

  lemma FirstEntryInverts(a: Column)
    ensures Dot(MixColumn(a), Vec(14, 11, 13, 9)) == a.a0
  {
    FirstRowOfMix(a);
    FirstRowIsUnit();
    hide FirstRow, MixColumn;
    TimesOne(a.a0); TimesOne(a.a1); TimesOne(a.a2); TimesOne(a.a3);
    XorZero(a.a0); XorZero(0);
    hide Times, Xor;
  }

  lemma MixColumnInverts(a: Column)
    ensures InvMixColumn(MixColumn(a)) == a
  {
    FirstEntryInverts(a);
    FirstEntryInverts(Rotate(a));
    FirstEntryInverts(Rotate(Rotate(a)));
    FirstEntryInverts(Rotate(Rotate(Rotate(a))));
    hide Dot;
  }

  // ----- the round transformations on a column-major state -----

  function SubBytes(s: seq<byte>): (r: seq<byte>)
    ensures |r| == |s|
  {
    seq(|s|, i requires 0 <= i < |s| => SBox(s[i]))
  }

  function InvSubBytes(s: seq<byte>): (r: seq<byte>)
    ensures |r| == |s|
  {
    seq(|s|, i requires 0 <= i < |s| => InvSBox(s[i]))
  }

  /** Row r, held at the indices 4c + r, moves left by r columns. */
  function ShiftRows(s: seq<byte>): (r: seq<byte>)
    requires |s| == BLOCK
    ensures |r| == BLOCK
  {
    seq(BLOCK, i requires 0 <= i < BLOCK => s[(i + 4 * (i % 4)) % BLOCK])
  }

  function InvShiftRows(s: seq<byte>): (r: seq<byte>)
    requires |s| == BLOCK
    ensures |r| == BLOCK
  {
    seq(BLOCK, i requires 0 <= i < BLOCK => s[(i + 12 * (i % 4)) % BLOCK])
  }

  function ColumnOf(s: seq<byte>, c: nat): Column
    requires |s| == BLOCK && c < 4
  {
    Column(s[4 * c], s[4 * c + 1], s[4 * c + 2], s[4 * c + 3])
  }

  function FromColumns(a: Column, b: Column, c: Column, d: Column): (r: seq<byte>)
    ensures |r| == BLOCK
    ensures ColumnOf(r, 0) == a && ColumnOf(r, 1) == b && ColumnOf(r, 2) == c && ColumnOf(r, 3) == d
  {
    [a.a0, a.a1, a.a2, a.a3, b.a0, b.a1, b.a2, b.a3, c.a0, c.a1, c.a2, c.a3, d.a0, d.a1, d.a2, d.a3]
  }

  function MixColumns(s: seq<byte>): (r: seq<byte>)
    requires |s| == BLOCK
    ensures |r| == BLOCK
  {
    FromColumns(MixColumn(ColumnOf(s, 0)), MixColumn(ColumnOf(s, 1)), MixColumn(ColumnOf(s, 2)),
                MixColumn(ColumnOf(s, 3)))
  }

  function InvMixColumns(s: seq<byte>): (r: seq<byte>)
    requires |s| == BLOCK
    ensures |r| == BLOCK
  {
    FromColumns(InvMixColumn(ColumnOf(s, 0)), InvMixColumn(ColumnOf(s, 1)),
                InvMixColumn(ColumnOf(s, 2)), InvMixColumn(ColumnOf(s, 3)))
  }

  lemma SubBytesInverts(s: seq<byte>)
    ensures InvSubBytes(SubBytes(s)) == s
  {
    forall i | 0 <= i < |s| ensures InvSubBytes(SubBytes(s))[i] == s[i] {
      SBoxInverts(s[i]);
    }
  }

  lemma ShiftRowsInverts(s: seq<byte>)
    requires |s| == BLOCK
    ensures InvShiftRows(ShiftRows(s)) == s
  {
    forall i | 0 <= i < BLOCK ensures InvShiftRows(ShiftRows(s))[i] == s[i] {
      ShiftedBack(i);
    }
  }

  /** Twelve to the right and four to the left, per row. */
  lemma ShiftedBack(i: nat)
    requires i < BLOCK
    ensures var j := (i + 12 * (i % 4)) % BLOCK; (j + 4 * (j % 4)) % BLOCK == i
  {
    var r := i % 4;
    var j := (i + 12 * r) % BLOCK;
    assert j % 4 == r;
    if r == 0 {
      assert j == i;
    } else if r == 1 {
      assert j == if i < 4 then i + 12 else i - 4;
    } else if r == 2 {
      assert j == if i < 8 then i + 8 else i - 8;
    } else {
      assert j == if i < 12 then i + 4 else i - 12;
    }
  }

  lemma MixColumnsInverts(s: seq<byte>)
    requires |s| == BLOCK
    ensures InvMixColumns(MixColumns(s)) == s
  {
    MixColumnInverts(ColumnOf(s, 0));
    MixColumnInverts(ColumnOf(s, 1));
    MixColumnInverts(ColumnOf(s, 2));
    MixColumnInverts(ColumnOf(s, 3));
    ColumnsRebuild(s);
    hide MixColumn, InvMixColumn, FromColumns, ColumnOf;
  }

  lemma ColumnsRebuild(s: seq<byte>)
    requires |s| == BLOCK
    ensures FromColumns(ColumnOf(s, 0), ColumnOf(s, 1), ColumnOf(s, 2), ColumnOf(s, 3)) == s
  {
  }

  function RoundKey(schedule: seq<byte>, round: nat): (k: seq<byte>)
    requires |schedule| == SCHEDULE_BYTES && round <= ROUNDS
    ensures |k| == BLOCK
  {
    schedule[round * BLOCK..(round + 1) * BLOCK]
  }

  function Round(s: seq<byte>, key: seq<byte>): (r: seq<byte>)
    requires |s| == |key| == BLOCK
    ensures |r| == BLOCK
  {
    XorBytes(MixColumns(ShiftRows(SubBytes(s))), key)
  }

  function InvRound(s: seq<byte>, key: seq<byte>): (r: seq<byte>)
    requires |s| == |key| == BLOCK
    ensures |r| == BLOCK
  {
    InvSubBytes(InvShiftRows(InvMixColumns(XorBytes(s, key))))
  }

  function LastRound(s: seq<byte>, key: seq<byte>): (r: seq<byte>)
    requires |s| == |key| == BLOCK
    ensures |r| == BLOCK
  {
    XorBytes(ShiftRows(SubBytes(s)), key)
  }

  function InvLastRound(s: seq<byte>, key: seq<byte>): (r: seq<byte>)
    requires |s| == |key| == BLOCK
    ensures |r| == BLOCK
  {
    InvSubBytes(InvShiftRows(XorBytes(s, key)))
  }

  lemma RoundInverts(s: seq<byte>, key: seq<byte>)
    requires |s| == |key| == BLOCK
    ensures InvRound(Round(s, key), key) == s && InvLastRound(LastRound(s, key), key) == s
  {
    hide XorBytes, MixColumns, InvMixColumns, ShiftRows, InvShiftRows, SubBytes, InvSubBytes;
    XorBytesCancels(MixColumns(ShiftRows(SubBytes(s))), key);
    XorBytesCancels(ShiftRows(SubBytes(s)), key);
    MixColumnsInverts(ShiftRows(SubBytes(s)));
    ShiftRowsInverts(SubBytes(s));
    SubBytesInverts(s);
  }

  /** The state after the first n full rounds. */
  function Rounds(schedule: seq<byte>, input: seq<byte>, n: nat): (s: seq<byte>)
    requires |schedule| == SCHEDULE_BYTES && |input| == BLOCK && n < ROUNDS
    ensures |s| == BLOCK
  {
    if n == 0 then XorBytes(input, RoundKey(schedule, 0))
    else Round(Rounds(schedule, input, n - 1), RoundKey(schedule, n))
  }

  /** Cipher of section 5.1 of FIPS 197: the last round has no MixColumns. */
  function Encrypt(schedule: seq<byte>, input: seq<byte>): (s: seq<byte>)
    requires |schedule| == SCHEDULE_BYTES && |input| == BLOCK
    ensures |s| == BLOCK
  {
    LastRound(Rounds(schedule, input, ROUNDS - 1), RoundKey(schedule, ROUNDS))
  }

  function UndoRounds(schedule: seq<byte>, state: seq<byte>, n: nat): (s: seq<byte>)
    requires |schedule| == SCHEDULE_BYTES && |state| == BLOCK && n < ROUNDS
    ensures |s| == BLOCK
    decreases n
  {
    hide InvRound, RoundKey, XorBytes;
    if n == 0 then XorBytes(state, RoundKey(schedule, 0))
    else UndoRounds(schedule, InvRound(state, RoundKey(schedule, n)), n - 1)
  }

  function Decrypt(schedule: seq<byte>, output: seq<byte>): (s: seq<byte>)
    requires |schedule| == SCHEDULE_BYTES && |output| == BLOCK
    ensures |s| == BLOCK
  {
    UndoRounds(schedule, InvLastRound(output, RoundKey(schedule, ROUNDS)), ROUNDS - 1)
  }

  lemma {:induction false} UndoRoundsInverts(schedule: seq<byte>, input: seq<byte>, n: nat)
    requires |schedule| == SCHEDULE_BYTES && |input| == BLOCK && n < ROUNDS
    ensures UndoRounds(schedule, Rounds(schedule, input, n), n) == input
  {
    hide Round, InvRound, RoundKey, XorBytes;
    if n == 0 {
      XorBytesCancels(input, RoundKey(schedule, 0));
    } else {
      RoundInverts(Rounds(schedule, input, n - 1), RoundKey(schedule, n));
      UndoRoundsInverts(schedule, input, n - 1);
    }
  }

  /** For every schedule of round keys, not only those that a key expands to. */
  lemma DecryptUndoesEncrypt(schedule: seq<byte>, input: seq<byte>)
    requires |schedule| == SCHEDULE_BYTES && |input| == BLOCK
    ensures Decrypt(schedule, Encrypt(schedule, input)) == input
  {
    hide LastRound, InvLastRound, Rounds, UndoRounds, RoundKey;
    RoundInverts(Rounds(schedule, input, ROUNDS - 1), RoundKey(schedule, ROUNDS));
    UndoRoundsInverts(schedule, input, ROUNDS - 1);
  }

  lemma EncryptInjective(schedule: seq<byte>, a: seq<byte>, b: seq<byte>)
    requires |schedule| == SCHEDULE_BYTES && |a| == |b| == BLOCK
    requires Encrypt(schedule, a) == Encrypt(schedule, b)
    ensures a == b
  {
    DecryptUndoesEncrypt(schedule, a);
    DecryptUndoesEncrypt(schedule, b);
    hide Encrypt, Decrypt;
  }

  // ----- key expansion: the word recurrence of section 5.2 of FIPS 197 -----

  function RoundConstant(i: nat): byte {
    if i == 0 then 0 else if i == 1 then 1 else XTime(RoundConstant(i - 1))
  }

  function RotWord(w: seq<byte>): (r: seq<byte>)
    requires |w| == 4
    ensures |r| == 4
  {
    w[1..] + w[..1]
  }

  function Word(key: seq<byte>, i: nat): (w: seq<byte>)
    requires |key| == KEY_BYTES
    ensures |w| == 4
  {
    if i < 8 then key[4 * i..4 * i + 4]
    else XorBytes(Word(key, i - 8), Mixed(Word(key, i - 1), i))
  }

  /** What the word before index i contributes. */
  function Mixed(w: seq<byte>, i: nat): (r: seq<byte>)
    requires |w| == 4
    ensures |r| == 4
  {
    if i % 8 == 0 then XorBytes(SubBytes(RotWord(w)), [RoundConstant(i / 8), 0, 0, 0])
    else if i % 8 == 4 then SubBytes(w)
    else w
  }

  function Schedule(key: seq<byte>): (s: seq<byte>)
    requires |key| == KEY_BYTES
    ensures |s| == SCHEDULE_BYTES
  {
    seq(SCHEDULE_BYTES, j requires 0 <= j < SCHEDULE_BYTES => Word(key, j / 4)[j % 4])
  }

  // ----- the kernel's in-place loops -----

  method AddRoundKeyInPlace(state: array<byte>, roundKeys: array<byte>, round: nat)
    requires state.Length == BLOCK && roundKeys.Length == SCHEDULE_BYTES && round <= ROUNDS && state != roundKeys
    modifies state
    ensures state[..] == XorBytes(old(state[..]), RoundKey(roundKeys[..], round))
  {
    for i := 0 to BLOCK
      invariant forall j :: i <= j < BLOCK ==> state[j] == old(state[j])
      invariant forall j :: 0 <= j < i ==> state[j] == XorByte(old(state[j]), roundKeys[round * BLOCK + j])
    {
      state[i] := XorByte(state[i], roundKeys[round * BLOCK + i]);
    }
  }

  method SubBytesInPlace(state: array<byte>)
    requires state.Length == BLOCK
    modifies state
    ensures state[..] == SubBytes(old(state[..]))
  {
    hide SBox;
    for i := 0 to BLOCK
      invariant forall j :: i <= j < BLOCK ==> state[j] == old(state[j])
      invariant forall j :: 0 <= j < i ==> state[j] == SBox(old(state[j]))
    {
      state[i] := SBox(state[i]);
    }
  }

  method ShiftRowsInPlace(state: array<byte>)
    requires state.Length == BLOCK
    modifies state
    ensures state[..] == ShiftRows(old(state[..]))
  {
    ShiftRowsTable(state[..]);
    hide ShiftRows;
    ShiftRow1(state);
    ShiftRow2(state);
    ShiftRow3(state);
    ghost var s := old(state[..]);
    assert state[..] == [s[0], s[5], s[10], s[15], s[4], s[9], s[14], s[3],
                         s[8], s[13], s[2], s[7], s[12], s[1], s[6], s[11]];
  }

  /** Row 1: left by one. */
  method ShiftRow1(state: array<byte>)
    requires state.Length == BLOCK
    modifies state
    ensures state[1] == old(state[5]) && state[5] == old(state[9])
    ensures state[9] == old(state[13]) && state[13] == old(state[1])
    ensures forall j :: 0 <= j < BLOCK && j % 4 != 1 ==> state[j] == old(state[j])
  {
    var temp := state[1];
    state[1] := state[5];
    state[5] := state[9];
    state[9] := state[13];
    state[13] := temp;
  }

  /** Row 2: left by two. */
  method ShiftRow2(state: array<byte>)
    requires state.Length == BLOCK
    modifies state
    ensures state[2] == old(state[10]) && state[10] == old(state[2])
    ensures state[6] == old(state[14]) && state[14] == old(state[6])
    ensures forall j :: 0 <= j < BLOCK && j % 4 != 2 ==> state[j] == old(state[j])
  {
    var temp := state[2];
    state[2] := state[10];
    state[10] := temp;
    temp := state[6];
    state[6] := state[14];
    state[14] := temp;
  }

  /** Row 3: left by three, that is, right by one. */
  method ShiftRow3(state: array<byte>)
    requires state.Length == BLOCK
    modifies state
    ensures state[15] == old(state[11]) && state[11] == old(state[7])
    ensures state[7] == old(state[3]) && state[3] == old(state[15])
    ensures forall j :: 0 <= j < BLOCK && j % 4 != 3 ==> state[j] == old(state[j])
  {
    var temp := state[15];
    state[15] := state[11];
    state[11] := state[7];
    state[7] := state[3];
    state[3] := temp;
  }

  lemma ShiftRowsTable(s: seq<byte>)
    requires |s| == BLOCK
    ensures ShiftRows(s) == [s[0], s[5], s[10], s[15], s[4], s[9], s[14], s[3],
                             s[8], s[13], s[2], s[7], s[12], s[1], s[6], s[11]]
  {
  }

  method MixColumnsInPlace(state: array<byte>)
    requires state.Length == BLOCK
    modifies state
    ensures state[..] == MixColumns(old(state[..]))
  {
    hide MixColumn;
    for c := 0 to 4
      invariant forall j :: 4 * c <= j < BLOCK ==> state[j] == old(state[j])
      invariant forall d :: 0 <= d < c ==> ColumnOf(state[..], d) == MixColumn(ColumnOf(old(state[..]), d))
    {
      ghost var before := state[..];
      MixOneColumn(state, c);
      forall d | 0 <= d < 4 && d != c ensures ColumnOf(state[..], d) == ColumnOf(before, d) {
      }
    }
    ColumnsRebuild(state[..]);
  }

  /** One pass of the loop body. */
  method MixOneColumn(state: array<byte>, c: nat)
    requires state.Length == BLOCK && c < 4
    modifies state
    ensures forall j :: 0 <= j < BLOCK && !(4 * c <= j < 4 * c + 4) ==> state[j] == old(state[j])
    ensures ColumnOf(state[..], c) == MixColumn(ColumnOf(old(state[..]), c))
  {
    var a0, a1, a2, a3 := state[4 * c], state[4 * c + 1], state[4 * c + 2], state[4 * c + 3];
    var two0 := GMul(a0, 2);
    var two1 := GMul(a1, 2);
    var two2 := GMul(a2, 2);
    var two3 := GMul(a3, 2);
    var three0 := GMul(a0, 3);
    var three1 := GMul(a1, 3);
    var three2 := GMul(a2, 3);
    var three3 := GMul(a3, 3);
    MixColumnEntries(Column(a0, a1, a2, a3));
    hide MixColumn, Times, Xor, XorByte;
    state[4 * c] := XorByte(XorByte(XorByte(two0, three1), a2), a3);
    state[4 * c + 1] := XorByte(XorByte(XorByte(a0, two1), three2), a3);
    state[4 * c + 2] := XorByte(XorByte(XorByte(a0, a1), two2), three3);
    state[4 * c + 3] := XorByte(XorByte(XorByte(three0, a1), a2), two3);
  }

  /** The four sums in the order in which they are written, left to right. */
  lemma MixColumnEntries(a: Column)
    ensures MixColumn(a).a0 == XorByte(XorByte(XorByte(Times(a.a0, 2), Times(a.a1, 3)), a.a2), a.a3)
    ensures MixColumn(a).a1 == XorByte(XorByte(XorByte(a.a0, Times(a.a1, 2)), Times(a.a2, 3)), a.a3)
    ensures MixColumn(a).a2 == XorByte(XorByte(XorByte(a.a0, a.a1), Times(a.a2, 2)), Times(a.a3, 3))
    ensures MixColumn(a).a3 == XorByte(XorByte(XorByte(Times(a.a0, 3), a.a1), a.a2), Times(a.a3, 2))
  {
    var m := Vec(2, 3, 1, 1);
    DotRotates(a, m);
    DotRotates(Rotate(a), m);
    DotRotates(a, Vec(1, 2, 3, 1));
    DotRotates(Rotate(Rotate(a)), m);
    DotRotates(Rotate(a), Vec(1, 2, 3, 1));
    DotRotates(a, Vec(1, 1, 2, 3));
    TimesOne(a.a0); TimesOne(a.a1); TimesOne(a.a2); TimesOne(a.a3);
    hide Times, Xor;
    XorAssociates(XorByte(Times(a.a0, 2), Times(a.a1, 3)), a.a2, a.a3);
    XorAssociates(XorByte(a.a0, Times(a.a1, 2)), Times(a.a2, 3), a.a3);
    XorAssociates(XorByte(a.a0, a.a1), Times(a.a2, 2), Times(a.a3, 3));
    XorAssociates(XorByte(Times(a.a0, 3), a.a1), a.a2, Times(a.a3, 2));
  }

  /** The two buffers may be the same one. */
  method EncryptBlock(roundKeys: array<byte>, input: array<byte>, output: array<byte>)
    requires roundKeys.Length == SCHEDULE_BYTES && input.Length == output.Length == BLOCK && output != roundKeys
    modifies output
    ensures output[..] == Encrypt(old(roundKeys[..]), old(input[..]))
  {
    hide XorBytes, MixColumns, ShiftRows, SubBytes, RoundKey;
    var state := new byte[BLOCK](i requires 0 <= i < BLOCK && input.Length == BLOCK reads input => input[i]);
    assert state[..] == input[..];
    ghost var schedule := roundKeys[..];
    AddRoundKeyInPlace(state, roundKeys, 0);
    for round := 1 to ROUNDS
      invariant roundKeys[..] == schedule && input[..] == old(input[..])
      invariant state[..] == Rounds(schedule, input[..], round - 1)
    {
      SubBytesInPlace(state);
      ShiftRowsInPlace(state);
      MixColumnsInPlace(state);
      AddRoundKeyInPlace(state, roundKeys, round);
    }
    SubBytesInPlace(state);
    ShiftRowsInPlace(state);
    AddRoundKeyInPlace(state, roundKeys, ROUNDS);
    for i := 0 to BLOCK
      invariant forall j :: 0 <= j < i ==> output[j] == state[j]
      invariant state[..] == Encrypt(schedule, old(input[..]))
    {
      output[i] := state[i];
    }
    assert output[..] == state[..];
  }

  ghost predicate Expanded(rk: seq<byte>, key: seq<byte>, words: nat)
    requires |key| == KEY_BYTES
  {
    4 * words <= |rk| && forall j :: 0 <= j < words ==> rk[4 * j..4 * j + 4] == Word(key, j)
  }

  method Init(roundKeys: array<byte>, key: array<byte>)
    requires roundKeys.Length == SCHEDULE_BYTES && key.Length == KEY_BYTES && roundKeys != key
    modifies roundKeys
    ensures roundKeys[..] == Schedule(key[..])
  {
    ghost var k := key[..];
    for i := 0 to KEY_BYTES
      invariant forall j :: 0 <= j < i ==> roundKeys[j] == key[j]
    {
      roundKeys[i] := key[i];
    }
    FirstWords(k);
    hide Word;
    var generated, words := KEY_BYTES, 8;
    while generated < SCHEDULE_BYTES
      invariant generated == 4 * words && 8 <= words <= 60
      invariant Expanded(roundKeys[..], k, words)
    {
      hide Expanded;
      ExpandWord(roundKeys, words, k);
      generated := generated + 4;
      words := words + 1;
    }
    forall j | 0 <= j < SCHEDULE_BYTES ensures roundKeys[j] == Word(k, j / 4)[j % 4] {
      assert roundKeys[..][4 * (j / 4)..4 * (j / 4) + 4] == Word(k, j / 4);
    }
  }

  /** One pass of the loop body. */
  method ExpandWord(roundKeys: array<byte>, words: nat, ghost key: seq<byte>)
    requires roundKeys.Length == SCHEDULE_BYTES && |key| == KEY_BYTES && 8 <= words < 60
    requires Expanded(roundKeys[..], key, words)
    modifies roundKeys
    ensures Expanded(roundKeys[..], key, words + 1)
  {
    hide Word, Mixed;
    var generated := 4 * words;
    ghost var before := roundKeys[..];
    var temp := NextTemp(roundKeys[generated - 4..generated], words);
    assert before[4 * (words - 1)..4 * (words - 1) + 4] == Word(key, words - 1);
    assert before[4 * (words - 8)..4 * (words - 8) + 4] == Word(key, words - 8);
    NextWord(key, words);
    XorIntoNext(roundKeys, generated, temp);
    forall j | 0 <= j < words ensures roundKeys[..][4 * j..4 * j + 4] == Word(key, j) {
      assert before[4 * j..4 * j + 4] == Word(key, j);
    }
    assert roundKeys[..][4 * words..4 * words + 4] == roundKeys[generated..generated + 4];
  }

  /** Fills the next four bytes; every earlier word stays as it was. */
  method XorIntoNext(roundKeys: array<byte>, generated: nat, temp: seq<byte>)
    requires KEY_BYTES <= generated <= roundKeys.Length - 4 && |temp| == 4 && generated % 4 == 0
    modifies roundKeys
    ensures forall j :: 0 <= j < generated / 4 ==> roundKeys[4 * j..4 * j + 4] == old(roundKeys[4 * j..4 * j + 4])
    ensures roundKeys[generated..generated + 4] ==
            XorBytes(old(roundKeys[generated - KEY_BYTES..generated - KEY_BYTES + 4]), temp)
  {
    ghost var before := roundKeys[..generated];
    XorFour(roundKeys, generated, temp);
    forall j | 0 <= j < generated / 4 ensures roundKeys[4 * j..4 * j + 4] == old(roundKeys[4 * j..4 * j + 4]) {
      assert roundKeys[4 * j..4 * j + 4] == before[4 * j..4 * j + 4];
    }
  }

  method XorFour(roundKeys: array<byte>, generated: nat, temp: seq<byte>)
    requires KEY_BYTES <= generated <= roundKeys.Length - 4 && |temp| == 4
    modifies roundKeys
    ensures roundKeys[..generated] == old(roundKeys[..generated])
    ensures roundKeys[generated..generated + 4] ==
            XorBytes(old(roundKeys[generated - KEY_BYTES..generated - KEY_BYTES + 4]), temp)
  {
    hide XorByte;
    for i := 0 to 4
      invariant forall j :: 0 <= j < generated ==> roundKeys[j] == old(roundKeys[j])
      invariant forall j :: 0 <= j < i ==>
                roundKeys[generated + j] == XorByte(old(roundKeys[generated - KEY_BYTES + j]), temp[j])
    {
      roundKeys[generated + i] := XorByte(roundKeys[generated - KEY_BYTES + i], temp[i]);
    }
  }

  /** The transformation of the last four bytes before they are mixed in. */
  method NextTemp(last: seq<byte>, words: nat) returns (temp: seq<byte>)
    requires |last| == 4 && 8 <= words < 60
    ensures temp == Mixed(last, words)
  {
    hide SBox;
    temp := last;
    if words % 8 == 0 {
      var t := temp[0];
      temp := temp[0 := temp[1]];
      temp := temp[1 := temp[2]];
      temp := temp[2 := temp[3]];
      temp := temp[3 := t];
      assert temp == RotWord(last);
      temp := [SBox(temp[0]), SBox(temp[1]), SBox(temp[2]), SBox(temp[3])];
      XorZero(temp[1]); XorZero(temp[2]); XorZero(temp[3]);
      RconIsRoundConstant(words / 8);
      temp := temp[0 := XorByte(temp[0], Rcon(words / 8))];
    } else if words % 8 == 4 {
      temp := [SBox(temp[0]), SBox(temp[1]), SBox(temp[2]), SBox(temp[3])];
    }
  }

  /** The table of round constants, which holds the powers of x. */
  function Rcon(i: nat): byte
    requires i < 15
  {
    [0x00, 0x01, 0x02, 0x04, 0x08, 0x10, 0x20, 0x40, 0x80, 0x1b, 0x36, 0x6c, 0xd8, 0xab, 0x4d][i]
  }

  lemma RconIsRoundConstant(i: nat)
    requires i < 8
    ensures Rcon(i) == RoundConstant(i)
  {
    assert RoundConstant(1) == 1 && RoundConstant(2) == 2 && RoundConstant(3) == 4 && RoundConstant(4) == 8;
    assert RoundConstant(5) == 0x10 && RoundConstant(6) == 0x20 && RoundConstant(7) == 0x40;
  }

  lemma FirstWords(key: seq<byte>)
    requires |key| == KEY_BYTES
    ensures forall j :: 0 <= j < 8 ==> Word(key, j) == key[4 * j..4 * j + 4]
  {
  }

  lemma NextWord(key: seq<byte>, i: nat)
    requires |key| == KEY_BYTES && i >= 8
    ensures Word(key, i) == XorBytes(Word(key, i - 8), Mixed(Word(key, i - 1), i))
  {
  }
}
