/** Fixed-width unsigned values, their bits and their byte encodings.

    A byte is a bounded integer. The C operators on bits are defined here by
    recursion on the binary digits, low digit first, so that every fact about
    them is proved by induction and none depends on a machine word. */
module Bytes {

  type byte = x: int | 0 <= x < 0x100
  type u16 = x: int | 0 <= x < 0x1_0000
  type u32 = x: int | 0 <= x < 0x1_0000_0000

  const TWO32 := 0x1_0000_0000

  function Min(a: int, b: int): int { if a < b then a else b }

  function Repeat(b: byte, n: nat): (s: seq<byte>)
    ensures |s| == n && forall i :: 0 <= i < n ==> s[i] == b
  {
    seq(n, _ => b)
  }

  function Zeros(n: nat): (s: seq<byte>)
    ensures |s| == n && forall i :: 0 <= i < n ==> s[i] == 0
  {
    Repeat(0, n)
  }

  lemma Regroup(a: seq<byte>, b: seq<byte>, c: seq<byte>)
    ensures a + (b + c) == a + b + c
  {
  }

  // ----- bits -----

  function Pow2(n: nat): (p: nat)
    ensures p > 0
  {
    if n == 0 then 1 else 2 * Pow2(n - 1)
  }

  /** (w >> i) & 1 */
  predicate Bit(w: nat, i: nat)
    decreases i
  {
    if i == 0 then w % 2 == 1 else Bit(w / 2, i - 1)
  }

  /** w | (1 << i) */
  function SetBit(w: nat, i: nat): nat
    decreases i
  {
    if i == 0 then w - w % 2 + 1 else 2 * SetBit(w / 2, i - 1) + w % 2
  }

  /** w & ~(1 << i) */
  function ClearBit(w: nat, i: nat): nat
    decreases i
  {
    if i == 0 then w - w % 2 else 2 * ClearBit(w / 2, i - 1) + w % 2
  }

  lemma {:induction false} SetBitBits(w: nat, i: nat, j: nat)
    ensures Bit(SetBit(w, i), j) == (i == j || Bit(w, j))
    decreases i
  {
    if i > 0 && j > 0 {
      SetBitBits(w / 2, i - 1, j - 1);
    }
  }

  lemma {:induction false} ClearBitBits(w: nat, i: nat, j: nat)
    ensures Bit(ClearBit(w, i), j) == (i != j && Bit(w, j))
    decreases i
  {
    if i > 0 && j > 0 {
      ClearBitBits(w / 2, i - 1, j - 1);
    }
  }

  lemma {:induction false} BitOpsBounded(w: nat, i: nat, n: nat)
    requires w < Pow2(n) && i < n
    ensures SetBit(w, i) < Pow2(n) && ClearBit(w, i) < Pow2(n)
    decreases i
  {
    if i > 0 {
      BitOpsBounded(w / 2, i - 1, n - 1);
    }
  }

  lemma {:induction false} ZeroHasNoBits(i: nat)
    ensures !Bit(0, i)
    decreases i
  {
    if i > 0 {
      ZeroHasNoBits(i - 1);
    }
  }

  /** Every bit below n is set in 2^n - 1. */
  lemma {:induction false} OnesHaveAllBits(n: nat, i: nat)
    requires i < n
    ensures Bit(Pow2(n) - 1, i)
    decreases i
  {
    if i > 0 {
      OnesHaveAllBits(n - 1, i - 1);
    }
  }

  lemma WordSize()
    ensures Pow2(32) == TWO32
  {
    assert Pow2(4) == 0x10 && Pow2(8) == 0x100 && Pow2(12) == 0x1000 && Pow2(16) == 0x1_0000;
    assert Pow2(20) == 0x10_0000 && Pow2(24) == 0x100_0000 && Pow2(28) == 0x1000_0000;
  }

  // ----- exclusive or -----

  /** a ^ b, digit by digit. */
  function Xor(a: nat, b: nat): nat
    decreases a + b
  {
    if a == 0 && b == 0 then 0 else 2 * Xor(a / 2, b / 2) + (a + b) % 2
  }

  lemma {:induction false} XorZero(a: nat)
    ensures Xor(a, 0) == a == Xor(0, a)
  {
    if a > 0 {
      XorZero(a / 2);
    }
  }

  lemma {:induction false} XorCommutes(a: nat, b: nat)
    ensures Xor(a, b) == Xor(b, a)
    decreases a + b
  {
    if a > 0 || b > 0 {
      XorCommutes(a / 2, b / 2);
    }
  }

  lemma XorStep(a: nat, b: nat)
    ensures Xor(a, b) / 2 == Xor(a / 2, b / 2) && Xor(a, b) % 2 == (a + b) % 2
  {
  }

  lemma {:induction false} XorAssociates(a: nat, b: nat, c: nat)
    ensures Xor(Xor(a, b), c) == Xor(a, Xor(b, c))
    decreases a + b + c
  {
    if a > 0 || b > 0 || c > 0 {
      XorAssociates(a / 2, b / 2, c / 2);
      ghost var ab, bc := Xor(a, b), Xor(b, c);
      XorStep(a, b);
      XorStep(b, c);
      XorStep(ab, c);
      XorStep(a, bc);
      ParityAssociates(a, b, c, ab, bc);
      hide Xor;
      HalvesEqual(Xor(ab, c), Xor(a, bc));
    }
  }

  lemma ParityAssociates(a: nat, b: nat, c: nat, ab: nat, bc: nat)
    requires ab % 2 == (a + b) % 2 && bc % 2 == (b + c) % 2
    ensures (ab + c) % 2 == (a + bc) % 2
  {
  }

  lemma HalvesEqual(l: nat, r: nat)
    requires l / 2 == r / 2 && l % 2 == r % 2
    ensures l == r
  {
  }

  lemma {:induction false} XorSelf(a: nat)
    ensures Xor(a, a) == 0
  {
    if a > 0 {
      XorSelf(a / 2);
    }
  }

  /** The fact behind every keystream: xor with the same value twice. */
  lemma XorCancels(a: nat, k: nat)
    ensures Xor(Xor(a, k), k) == a && Xor(a, Xor(a, k)) == k
  {
    XorAssociates(a, k, k);
    XorSelf(k);
    XorAssociates(a, a, k);
    XorSelf(a);
    XorZero(a);
    XorZero(k);
  }

  lemma {:induction false} XorBounded(a: nat, b: nat, n: nat)
    requires a < Pow2(n) && b < Pow2(n)
    ensures Xor(a, b) < Pow2(n)
    decreases n
  {
    if a > 0 || b > 0 {
      XorBounded(a / 2, b / 2, n - 1);
    }
  }

  /** a & b, digit by digit. */
  function And(a: nat, b: nat): nat
    decreases a + b
  {
    if a == 0 && b == 0 then 0 else 2 * And(a / 2, b / 2) + (if a % 2 == 1 && b % 2 == 1 then 1 else 0)
  }

  lemma OddSum(m: nat, n: nat)
    ensures ((m + n) % 2 == 1) == ((m % 2 == 1) != (n % 2 == 1))
  {
  }

  /** Bit i of a ^ b and of a & b, from the bits of the two. */
  lemma {:induction false} XorBits(a: nat, b: nat, i: nat)
    ensures Bit(Xor(a, b), i) == (Bit(a, i) != Bit(b, i))
    decreases i
  {
    hide Xor;
    XorStep(a, b);
    if i == 0 {
      OddSum(a, b);
    } else {
      XorBits(a / 2, b / 2, i - 1);
    }
  }

  lemma {:induction false} AndBits(a: nat, b: nat, i: nat)
    ensures Bit(And(a, b), i) == (Bit(a, i) && Bit(b, i))
    decreases i
  {
    if i > 0 {
      AndBits(a / 2, b / 2, i - 1);
    }
  }

  /** The bits are the binary digits. */
  lemma {:induction false} BitIsDigit(w: nat, i: nat)
    ensures Bit(w, i) <==> (w / Pow2(i)) % 2 == 1
    decreases i
  {
    if i > 0 {
      BitIsDigit(w / 2, i - 1);
      HalfThenDivide(w, Pow2(i - 1));
    }
  }

  lemma HalfThenDivide(w: nat, p: nat)
    requires p > 0
    ensures w / 2 / p == w / (2 * p)
  {
    var h := w / 2;
    assert h == p * (h / p) + h % p;
    assert w == (2 * p) * (h / p) + (2 * (h % p) + w % 2) by {
      assert 2 * (p * (h / p)) == (2 * p) * (h / p);
    }
    ModUnique(w, 2 * p, h / p, 2 * (h % p) + w % 2);
  }

  /** Two values below 2^n with the same n bits are equal. */
  lemma {:induction false} SameBits(a: nat, b: nat, n: nat)
    requires a < Pow2(n) && b < Pow2(n) && forall i :: 0 <= i < n ==> Bit(a, i) == Bit(b, i)
    ensures a == b
    decreases n
  {
    if n > 0 {
      forall i | 0 <= i < n - 1 ensures Bit(a / 2, i) == Bit(b / 2, i) {
        assert Bit(a, i + 1) == Bit(b, i + 1);
      }
      SameBits(a / 2, b / 2, n - 1);
      assert Bit(a, 0) == Bit(b, 0);
    }
  }

  function XorByte(a: byte, b: byte): (r: byte)
    ensures r == Xor(a, b)
  {
    assert Pow2(8) == 256;
    XorBounded(a, b, 8);
    Xor(a, b)
  }

  function XorBytes(a: seq<byte>, b: seq<byte>): (r: seq<byte>)
    requires |a| == |b|
    ensures |r| == |a|
  {
    seq(|a|, i requires 0 <= i < |a| => XorByte(a[i], b[i]))
  }

  lemma XorBytesCancels(a: seq<byte>, k: seq<byte>)
    requires |a| == |k|
    ensures XorBytes(XorBytes(a, k), k) == a
  {
    forall i | 0 <= i < |a| ensures XorBytes(XorBytes(a, k), k)[i] == a[i] {
      XorCancels(a[i], k[i]);
    }
  }

  // ----- byte order -----

  /** The low 8n bits of v as n bytes, most significant first. */
  function BigEndian(v: nat, n: nat): (s: seq<byte>)
    ensures |s| == n
    decreases n
  {
    if n == 0 then [] else BigEndian(v / 256, n - 1) + [v % 256]
  }

  function FromBigEndian(s: seq<byte>): nat {
    if s == [] then 0 else 256 * FromBigEndian(s[..|s| - 1]) + s[|s| - 1]
  }

  function Pow256(n: nat): (p: nat)
    ensures p > 0
  {
    if n == 0 then 1 else 256 * Pow256(n - 1)
  }

  lemma {:induction false} BigEndianRoundTrip(v: nat, n: nat)
    ensures FromBigEndian(BigEndian(v, n)) == v % Pow256(n)
    decreases n
  {
    if n > 0 {
      BigEndianRoundTrip(v / 256, n - 1);
      var s := BigEndian(v, n);
      assert s[..|s| - 1] == BigEndian(v / 256, n - 1);
      DivModStep(v, Pow256(n - 1));
    }
  }

  lemma DivModStep(v: nat, p: nat)
    requires p > 0
    ensures v % (256 * p) == 256 * ((v / 256) % p) + v % 256
  {
    var q, r := v / 256, v % 256;
    var q', r' := q / p, q % p;
    assert q == p * q' + r';
    assert v == (256 * p) * q' + (256 * r' + r) by {
      assert 256 * (p * q') == (256 * p) * q';
    }
    assert r' <= p - 1;
    assert 0 <= 256 * r' + r < 256 * p;
    ModUnique(v, 256 * p, q', 256 * r' + r);
  }

  lemma ModUnique(v: nat, m: nat, q: nat, r: nat)
    requires m > 0 && v == m * q + r && r < m
    ensures v / m == q && v % m == r
  {
    if v / m < q {
      MulMonotone(m, v / m + 1, q);
    } else if v / m > q {
      MulMonotone(m, q + 1, v / m);
    }
  }

  lemma MulMonotone(m: nat, a: nat, b: nat)
    requires a <= b
    ensures m * a <= m * b
  {
    assert m * b == m * a + m * (b - a);
  }

  /** Byte i of a big-endian number is the digit that a right shift brings down. */
  lemma {:induction false} BigEndianAt(v: nat, n: nat, i: nat)
    requires i < n
    ensures BigEndian(v, n)[i] == (v / Pow256(n - 1 - i)) % 256
    decreases n
  {
    if i < n - 1 {
      BigEndianAt(v / 256, n - 1, i);
      DivTwice(v, Pow256(n - 2 - i));
    }
  }

  lemma DivTwice(v: nat, p: nat)
    requires p > 0
    ensures v / 256 / p == v / (256 * p)
  {
    var q, r := v / 256, v % 256;
    assert q == p * (q / p) + q % p;
    assert v == (256 * p) * (q / p) + (256 * (q % p) + r) by {
      assert 256 * (p * (q / p)) == (256 * p) * (q / p);
    }
    ModUnique(v, 256 * p, q / p, 256 * (q % p) + r);
  }

  // ----- counting -----

  function UpTo(n: nat): (r: set<int>)
    ensures forall i :: i in r <==> 0 <= i < n
  {
    if n == 0 then {} else UpTo(n - 1) + {n - 1}
  }

  lemma {:induction false} UpToSize(n: nat)
    ensures |UpTo(n)| == n
  {
    if n > 0 {
      UpToSize(n - 1);
    }
  }

  lemma SubsetSize<T>(a: set<T>, b: set<T>)
    requires a <= b
    ensures |a| <= |b| && (|a| == |b| ==> a == b)
  {
    assert b == a + (b - a);
  }
}
