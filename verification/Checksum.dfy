/** src/kernel/checksum.c: the one's-complement checksum of RFC 1071. */
module Checksum {
  import opened Bytes

  const ONES := 0xFFFF

  /** The plain sum of big-endian 16-bit words; a trailing byte is the high half of one. */
  function WordSum(s: seq<byte>): nat
    decreases |s|
  {
    if |s| == 0 then 0
    else if |s| == 1 then 0x100 * (s[0] as int)
    else 0x100 * (s[0] as int) + s[1] as int + WordSum(s[2..])
  }

  /** Carries added back in until none is left. */
  function Fold(sum: nat): (r: nat)
    ensures r <= ONES
    decreases sum
  {
    if sum <= ONES then sum else Fold(sum % 0x1_0000 + sum / 0x1_0000)
  }

  function Finish(sum: nat): (r: u16)
  {
    ONES - Fold(sum)
  }

  /** What internet_checksum returns on a buffer short enough not to overflow. */
  function Internet(s: seq<byte>): u16 { Finish(WordSum(s)) }

  // ----- the code -----

  method Add(sum: u32, data: seq<byte>) returns (r: u32)
    requires |data| < TWO32
    ensures r == (sum + WordSum(data)) % TWO32
    ensures sum + WordSum(data) < TWO32 ==> r == sum + WordSum(data)
  {
    var acc: int := sum;
    var i := 0;
    assert data[0..] == data;
    while i + 1 < |data|
      invariant 0 <= i <= |data| && 0 <= acc < TWO32
      invariant (acc + WordSum(data[i..])) % TWO32 == (sum + WordSum(data)) % TWO32
      decreases |data| - i
    {
      var word := 0x100 * (data[i] as int) + data[i + 1] as int;
      assert data[i..][2..] == data[i + 2..];
      WrapStep(acc, word, WordSum(data[i + 2..]));
      acc := (acc + word) % TWO32;
      i := i + 2;
    }
    if i < |data| {
      assert |data[i..]| == 1;
      acc := (acc + 0x100 * (data[i] as int)) % TWO32;
    }
    r := acc;
  }

  lemma WrapStep(acc: nat, word: nat, rest: nat)
    ensures ((acc + word) % TWO32 + rest) % TWO32 == (acc + (word + rest)) % TWO32
  {
  }

  method FinishSum(sum: u32) returns (r: u16)
    ensures r == Finish(sum)
  {
    var acc: int := sum;
    while acc / 0x1_0000 != 0
      invariant 0 <= acc && Fold(acc) == Fold(sum)
      decreases acc
    {
      acc := acc % 0x1_0000 + acc / 0x1_0000;
    }
    r := ONES - acc;
  }

  method InternetChecksum(data: seq<byte>) returns (r: u16)
    requires |data| < TWO32
    ensures WordSum(data) < TWO32 ==> r == Internet(data)
  {
    var sum := Add(0, data);
    r := FinishSum(sum);
  }

  // ----- arithmetic modulo 2^16 - 1 -----

  /** Folding keeps the value modulo 65535, and tells zero from a multiple of 65535. */
  lemma {:induction false} FoldIs(sum: nat)
    ensures Fold(sum) == if sum == 0 then 0 else (sum - 1) % ONES + 1
    ensures Fold(sum) % ONES == sum % ONES && (Fold(sum) == 0 <==> sum == 0)
    decreases sum
  {
    if sum > ONES {
      var q, r := sum / 0x1_0000, sum % 0x1_0000;
      FoldIs(r + q);
      assert sum - 1 == ONES * q + (r + q - 1);
      ModOfSum(q, r + q - 1);
    }
    if sum > 0 {
      ShiftedMod(sum);
    }
  }

  lemma ModOfSum(q: nat, x: nat)
    ensures (ONES * q + x) % ONES == x % ONES
  {
    ModUnique(ONES * q + x, ONES, q + x / ONES, x % ONES);
  }

  lemma ShiftedMod(x: nat)
    requires x > 0
    ensures ((x - 1) % ONES + 1) % ONES == x % ONES
  {
  }

  /** A sum passes the receiver's check exactly when it is a positive multiple of 65535. */
  lemma PassesWhen(sum: nat)
    ensures Finish(sum) == 0 <==> sum > 0 && sum % ONES == 0
  {
    FoldIs(sum);
  }

  lemma {:induction false} SumAppend(a: seq<byte>, b: seq<byte>)
    requires |a| % 2 == 0
    ensures WordSum(a + b) == WordSum(a) + WordSum(b)
    decreases |a|
  {
    if a == [] {
      assert a + b == b;
    } else {
      assert (a + b)[2..] == a[2..] + b;
      SumAppend(a[2..], b);
    }
  }

  /** Adding two buffers in turn is adding their concatenation when the first has even
      length. */
  method AddTwice(a: seq<byte>, b: seq<byte>) returns (r: u32, whole: u32)
    requires |a| % 2 == 0 && |a| + |b| < TWO32
    ensures r == whole
  {
    var first := Add(0, a);
    r := Add(first, b);
    whole := Add(0, a + b);
    SumAppend(a, b);
    WrapStep(0, WordSum(a), WordSum(b));
  }

  /** 32 bits are enough for any packet. */
  lemma {:induction false} SumBound(s: seq<byte>)
    ensures WordSum(s) <= ONES * ((|s| + 1) / 2)
    decreases |s|
  {
    if |s| >= 2 {
      SumBound(s[2..]);
    }
  }

  lemma NoOverflow(s: seq<byte>)
    requires |s| <= 0x1_0000
    ensures WordSum(s) < TWO32
  {
    SumBound(s);
  }

  // ----- a stored checksum, and what it detects -----

  function Word16(v: u16): (w: seq<byte>)
    ensures |w| == 2
  {
    [v / 0x100, v % 0x100]
  }

  /** The buffer with the word at k replaced. */
  function Put16(s: seq<byte>, k: nat, v: u16): (r: seq<byte>)
    requires k + 2 <= |s|
    ensures |r| == |s|
  {
    s[..k] + Word16(v) + s[k + 2..]
  }

  function Get16(s: seq<byte>, k: nat): u16
    requires k + 2 <= |s|
  {
    0x100 * (s[k] as int) + s[k + 1] as int
  }

  lemma SumOfPut(s: seq<byte>, k: nat, v: u16)
    requires k + 2 <= |s| && k % 2 == 0
    ensures WordSum(Put16(s, k, v)) == WordSum(s) - Get16(s, k) as int + v as int
    ensures WordSum(s) >= Get16(s, k)
  {
    hide WordSum;
    var a, b := s[..k], s[k + 2..];
    SplitAround(s, k);
    SumAround(a, s[k..k + 2], b);
    SumAround(a, Word16(v), b);
  }

  lemma SplitAround(s: seq<byte>, k: nat)
    requires k + 2 <= |s|
    ensures s == s[..k] + s[k..k + 2] + s[k + 2..]
  {
  }

  lemma SumAround(a: seq<byte>, w: seq<byte>, b: seq<byte>)
    requires |a| % 2 == 0 && |w| == 2
    ensures WordSum(a + w + b) == WordSum(a) + 0x100 * (w[0] as int) + w[1] as int + WordSum(b)
  {
    SumAppend(a + w, b);
    SumAppend(a, w);
    SumOfTwo(w);
  }

  lemma SumOfTwo(w: seq<byte>)
    requires |w| == 2
    ensures WordSum(w) == 0x100 * (w[0] as int) + w[1] as int
  {
    assert w[2..] == [];
  }

  /** Storing the checksum of a buffer in an even field that was zero makes it check. */
  lemma StoredChecksumPasses(s: seq<byte>, k: nat)
    requires k + 2 <= |s| && k % 2 == 0 && Get16(s, k) == 0
    ensures Internet(Put16(s, k, Internet(s))) == 0
  {
    var x := WordSum(s);
    FoldIs(x);
    SumOfPut(s, k, Internet(s));
    PassesWhen(x + ONES - Fold(x));
    MultipleOfOnes(x, Fold(x));
  }

  lemma MultipleOfOnes(x: nat, f: nat)
    requires f <= ONES && f % ONES == x % ONES
    ensures (x + ONES - f) % ONES == 0
  {
    if f == ONES {
      assert x + ONES - f == x;
    } else {
      assert f == x % ONES;
      ModUnique(x + ONES - f, ONES, x / ONES + 1, 0);
    }
  }

  /** A change of one word of a buffer that checks goes unseen exactly when it swaps 0x0000
      and 0xFFFF and leaves some word that is not zero. */
  lemma OneWordChanged(s: seq<byte>, k: nat, v: u16)
    requires k + 2 <= |s| && k % 2 == 0 && Internet(s) == 0 && v != Get16(s, k)
    ensures Internet(Put16(s, k, v)) == 0 <==>
            (Get16(s, k) == 0 && v == ONES) || (Get16(s, k) == ONES && v == 0 && WordSum(s) > ONES)
  {
    hide WordSum, Put16, Finish, Get16;
    var x, w: int := WordSum(s), Get16(s, k);
    SumOfPut(s, k, v);
    PassesWhen(x);
    PassesWhen(x - w + v);
    ChangedMultiple(x, w, v);
  }

  lemma ChangedMultiple(x: nat, w: nat, v: nat)
    requires x > 0 && x % ONES == 0 && w <= ONES && v <= ONES && w != v && w <= x
    ensures (x - w + v > 0 && (x - w + v) % ONES == 0) <==> ((w == 0 && v == ONES) || (w == ONES && v == 0 && x > ONES))
  {
    DifferenceOfMultiples(x, x - w + v);
  }

  lemma DifferenceOfMultiples(x: nat, y: nat)
    requires x % ONES == 0
    ensures y % ONES == 0 <==> (y - x) % ONES == 0
  {
    var q := x / ONES;
    assert x == ONES * q;
    assert y == ONES * q + (y - x);
  }

  /** How much a byte counts for: the high half of its word or the low one. */
  function Weight(k: nat): (w: nat)
    ensures w in {1, 0x100}
  {
    if k % 2 == 0 then 0x100 else 1
  }

  lemma {:induction false} SumOfByte(s: seq<byte>, k: nat, v: byte)
    requires k < |s|
    ensures WordSum(s[k := v]) == WordSum(s) + Weight(k) * (v as int - s[k] as int)
    decreases |s|
  {
    if k >= 2 {
      assert s[k := v][2..] == s[2..][k - 2 := v];
      SumOfByte(s[2..], k - 2, v);
    } else if |s| >= 2 {
      assert s[k := v][2..] == s[2..];
    }
  }

  /** A change of a single byte of a buffer that checks never goes unseen, a trailing odd byte
      included. */
  lemma OneByteChanged(s: seq<byte>, k: nat, v: byte)
    requires k < |s| && Internet(s) == 0 && v != s[k]
    ensures Internet(s[k := v]) != 0
  {
    hide WordSum, Finish;
    SumOfByte(s, k, v);
    var x, y := WordSum(s), WordSum(s[k := v]);
    PassesWhen(x);
    PassesWhen(y);
    DifferenceOfMultiples(x, y);
  }
}
