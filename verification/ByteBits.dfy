/** Exclusive or on bytes by machine arithmetic: how a value is computed once its bits are known. */
module ByteBits {
  import opened Bytes

  lemma HalfOf(x: bv8)
    ensures (x >> 1) as int == x as int / 2
  {
  }

  lemma ParityOf(x: bv8)
    ensures (x as int % 2 == 1) == (x & 1 == 1)
  {
  }

  lemma ZeroOf(x: bv8)
    ensures x as int == 0 <==> x == 0
  {
  }

  /** Bit j, by shifting down. */
  predicate Nth(x: bv8, j: nat)
    decreases j
  {
    if j == 0 then x & 1 == 1 else Nth(x >> 1, j - 1)
  }

  lemma {:induction false} NthIsBit(x: bv8, j: nat)
    ensures Nth(x, j) == Bit(x as int, j)
    decreases j
  {
    if j == 0 {
      ParityOf(x);
    } else {
      NthIsBit(x >> 1, j - 1);
      HalfOf(x);
    }
  }

  predicate XorAgrees(x: bv8, y: bv8) { Xor(x as int, y as int) == (x ^ y) as int }

  lemma {:induction false} XorIsXor(x: bv8, y: bv8)
    ensures XorAgrees(x, y)
    decreases x as int + y as int
  {
    hide XorAgrees;
    if x == 0 && y == 0 {
      ZerosAgree();
    } else {
      HalvesSmaller(x, y);
      XorIsXor(x >> 1, y >> 1);
      DoublesAgree(x, y);
    }
  }

  lemma ZerosAgree()
    ensures XorAgrees(0, 0)
  {
  }

  lemma HalvesSmaller(x: bv8, y: bv8)
    requires x != 0 || y != 0
    ensures (x >> 1) as int + (y >> 1) as int < x as int + y as int
  {
    HalfOf(x); HalfOf(y);
    ZeroOf(x); ZeroOf(y);
  }

  lemma DoublesAgree(x: bv8, y: bv8)
    requires XorAgrees(x >> 1, y >> 1)
    ensures XorAgrees(x, y)
  {
    hide Xor;
    XorOfDoubles(x, y);
  }

  lemma XorOfDoubles(x: bv8, y: bv8)
    requires Xor((x >> 1) as int, (y >> 1) as int) == ((x >> 1) ^ (y >> 1)) as int
    ensures Xor(x as int, y as int) == (x ^ y) as int
  {
    hide Xor;
    HalvesOfXor(x, y);
    XorFromHalves(x as int, y as int, (x ^ y) as int);
  }

  lemma HalvesOfXor(x: bv8, y: bv8)
    ensures (x >> 1) as int == x as int / 2 && (y >> 1) as int == y as int / 2
    ensures ((x >> 1) ^ (y >> 1)) as int == (x ^ y) as int / 2
    ensures (x as int + y as int) % 2 == (x ^ y) as int % 2
  {
    XorShifts(x, y);
    HalfOf(x); HalfOf(y); HalfOf(x ^ y);
    ParityOfXor(x, y);
  }

  lemma XorShifts(x: bv8, y: bv8)
    ensures (x >> 1) ^ (y >> 1) == (x ^ y) >> 1
    ensures ((x ^ y) & 1 == 1) == ((x & 1 == 1) != (y & 1 == 1))
  {
  }

  lemma ParityOfXor(x: bv8, y: bv8)
    ensures (x as int + y as int) % 2 == (x ^ y) as int % 2
  {
    XorShifts(x, y);
    ParityOf(x); ParityOf(y); ParityOf(x ^ y);
    OddSum(x as int, y as int);
  }

  lemma XorFromHalves(a: nat, b: nat, c: nat)
    requires Xor(a / 2, b / 2) == c / 2 && (a + b) % 2 == c % 2
    ensures Xor(a, b) == c
  {
    XorStep(a, b);
  }

  // ----- every byte is the value of a machine byte -----

  lemma BitsAgain(x: bv8)
    ensures (x as int) as bv8 == x
  {
  }

  lemma NextDigit(x: bv8)
    requires x < 0x80
    ensures (x << 1) as int == 2 * (x as int) && ((x << 1) | 1) as int == 2 * (x as int) + 1
  {
  }

  lemma BelowHalf(x: bv8)
    ensures x as int < 0x80 <==> x < 0x80
  {
  }

  lemma {:induction false} FromByte(b: byte) returns (x: bv8)
    ensures x as int == b
    decreases b
  {
    if b == 0 {
      x := 0;
    } else {
      var h := FromByte(b / 2);
      BelowHalf(h);
      NextDigit(h);
      x := if b % 2 == 0 then h << 1 else (h << 1) | 1;
    }
  }

  lemma BackAgain(b: byte)
    ensures (b as bv8) as int == b
  {
    var x := FromByte(b);
    BitsAgain(x);
  }
}
