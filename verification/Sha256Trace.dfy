/** Running the compression function on given blocks, one published value after another. */
module Sha256Trace {
  import opened Bytes
  import opened Sha256

  /** Word t of the schedule is w; after t rounds from v0 the working variables are v. */
  predicate Word(b: seq<byte>, t: nat, w: word)
    requires |b| == BLOCK
  {
    Schedule(b, t) == w
  }

  predicate Words(b: seq<byte>, t: nat, w0: word, w1: word, w2: word, w3: word, w4: word, w5: word, w6: word, w7: word)
    requires |b| == BLOCK
  {
    && Word(b, t, w0) && Word(b, t + 1, w1) && Word(b, t + 2, w2) && Word(b, t + 3, w3)
    && Word(b, t + 4, w4) && Word(b, t + 5, w5) && Word(b, t + 6, w6) && Word(b, t + 7, w7)
  }

  predicate At(v0: Vars, b: seq<byte>, t: nat, v: Vars)
    requires |b| == BLOCK && t <= 64
  {
    Rounds(v0, b, t) == v
  }

  lemma Start(v0: Vars, b: seq<byte>)
    requires |b| == BLOCK
    ensures At(v0, b, 0, v0)
  {
  }

  lemma Step(v0: Vars, b: seq<byte>, t: nat, v: Vars, k: word, w: word, r: Vars)
    requires |b| == BLOCK && t < 64 && At(v0, b, t, v) && K(t) == k && Word(b, t, w) && Round(v, k, w) == r
    ensures At(v0, b, t + 1, r)
  {
    hide Round, K;
  }

  lemma KValues0()
    ensures K(0) == 0x428a2f98 && K(1) == 0x71374491 && K(2) == 0xb5c0fbcf && K(3) == 0xe9b5dba5
    ensures K(4) == 0x3956c25b && K(5) == 0x59f111f1 && K(6) == 0x923f82a4 && K(7) == 0xab1c5ed5
  {
  }

  lemma KValues8()
    ensures K(8) == 0xd807aa98 && K(9) == 0x12835b01 && K(10) == 0x243185be && K(11) == 0x550c7dc3
    ensures K(12) == 0x72be5d74 && K(13) == 0x80deb1fe && K(14) == 0x9bdc06a7 && K(15) == 0xc19bf174
  {
  }

  lemma KValues16()
    ensures K(16) == 0xe49b69c1 && K(17) == 0xefbe4786 && K(18) == 0x0fc19dc6 && K(19) == 0x240ca1cc
    ensures K(20) == 0x2de92c6f && K(21) == 0x4a7484aa && K(22) == 0x5cb0a9dc && K(23) == 0x76f988da
  {
  }

  lemma KValues24()
    ensures K(24) == 0x983e5152 && K(25) == 0xa831c66d && K(26) == 0xb00327c8 && K(27) == 0xbf597fc7
    ensures K(28) == 0xc6e00bf3 && K(29) == 0xd5a79147 && K(30) == 0x06ca6351 && K(31) == 0x14292967
  {
  }

  lemma KValues32()
    ensures K(32) == 0x27b70a85 && K(33) == 0x2e1b2138 && K(34) == 0x4d2c6dfc && K(35) == 0x53380d13
    ensures K(36) == 0x650a7354 && K(37) == 0x766a0abb && K(38) == 0x81c2c92e && K(39) == 0x92722c85
  {
  }

  lemma KValues40()
    ensures K(40) == 0xa2bfe8a1 && K(41) == 0xa81a664b && K(42) == 0xc24b8b70 && K(43) == 0xc76c51a3
    ensures K(44) == 0xd192e819 && K(45) == 0xd6990624 && K(46) == 0xf40e3585 && K(47) == 0x106aa070
  {
  }

  lemma KValues48()
    ensures K(48) == 0x19a4c116 && K(49) == 0x1e376c08 && K(50) == 0x2748774c && K(51) == 0x34b0bcb5
    ensures K(52) == 0x391c0cb3 && K(53) == 0x4ed8aa4a && K(54) == 0x5b9cca4f && K(55) == 0x682e6ff3
  {
  }

  lemma KValues56()
    ensures K(56) == 0x748f82ee && K(57) == 0x78a5636f && K(58) == 0x84c87814 && K(59) == 0x8cc70208
    ensures K(60) == 0x90befffa && K(61) == 0xa4506ceb && K(62) == 0xbef9a3f7 && K(63) == 0xc67178f2
  {
  }

  lemma FirstWord(b: seq<byte>, t: nat, w: word)
    requires |b| == BLOCK && t < 16 && BigEndianWord([b[4 * t], b[4 * t + 1], b[4 * t + 2], b[4 * t + 3]]) == w
    ensures Word(b, t, w)
  {
    hide BigEndianWord;
    assert b[4 * t..4 * t + 4] == [b[4 * t], b[4 * t + 1], b[4 * t + 2], b[4 * t + 3]];
  }

  lemma ZeroWord(b: seq<byte>, t: nat)
    requires |b| == BLOCK && t < 16 && forall i :: 4 * t <= i < 4 * t + 4 ==> b[i] == 0
    ensures Word(b, t, 0)
  {
    FirstWord(b, t, 0);
  }

  lemma NextWord(b: seq<byte>, t: nat, w16: word, w15: word, w7: word, w2: word, w: word)
    requires |b| == BLOCK && t >= 16
    requires Word(b, t - 16, w16) && Word(b, t - 15, w15) && Word(b, t - 7, w7) && Word(b, t - 2, w2)
    requires w == Plus(Plus(Plus(w16, SmallSigma0(w15)), w7), SmallSigma1(w2))
    ensures Word(b, t, w)
  {
    ScheduleStep(b, t);
    hide Schedule, Plus, SmallSigma0, SmallSigma1;
  }

  // ----- from the last round to the digest -----

  lemma CompressIs(h: seq<word>, b: seq<byte>, v: Vars, r: seq<word>)
    requires |h| == 8 && |b| == BLOCK && At(FromSeq(h), b, 64, v) && r == Added(h, v)
    ensures Compress(h, b) == r
  {
    hide Rounds, Added, FromSeq;
  }

  lemma FoldOne(b: seq<byte>)
    requires |b| == BLOCK
    ensures Fold(b) == Compress(H0, b)
  {
    FoldSplits([], b);
    assert [] + b == b;
    hide Compress;
  }

  lemma FoldTwo(b: seq<byte>, c: seq<byte>)
    requires |b| == |c| == BLOCK
    ensures Fold(b + c) == Compress(Compress(H0, b), c)
  {
    FoldOne(b);
    FoldSplits(b, c);
    hide Compress, Fold;
  }

  /** The first k + 1 words of a digest from the first k. */
  lemma OneMoreWord(h: seq<word>, k: nat, b: seq<byte>)
    requires k < |h| && WordBytes(h[k]) == b
    ensures DigestBytes(h)[..4 * (k + 1)] == DigestBytes(h)[..4 * k] + b
  {
    hide WordBytes;
    forall i | 0 <= i < 4 ensures DigestBytes(h)[4 * k + i] == b[i] {
      assert (4 * k + i) / 4 == k && (4 * k + i) % 4 == i;
    }
  }

  /** The 32 bytes of a digest from the bytes of its words. */
  lemma DigestIs(h: seq<word>, b: seq<seq<byte>>)
    requires |h| == |b| == 8 && forall k :: 0 <= k < 8 ==> WordBytes(h[k]) == b[k]
    ensures DigestBytes(h) == b[0] + b[1] + b[2] + b[3] + b[4] + b[5] + b[6] + b[7]
  {
    hide WordBytes, DigestBytes;
    OneMoreWord(h, 0, b[0]); OneMoreWord(h, 1, b[1]); OneMoreWord(h, 2, b[2]); OneMoreWord(h, 3, b[3]);
    OneMoreWord(h, 4, b[4]); OneMoreWord(h, 5, b[5]); OneMoreWord(h, 6, b[6]); OneMoreWord(h, 7, b[7]);
    var d := DigestBytes(h);
    assert d[..32] == d && d[..0] == [] && [] + b[0] == b[0];
  }

  // ----- lengths below 2^16 -----

  lemma {:induction false} OneByteLength(v: nat, n: nat)
    requires v < 0x100 && n >= 1
    ensures BigEndian(v, n) == Zeros(n - 1) + [v]
    decreases n
  {
    if n == 1 {
      assert BigEndian(v / 256, 0) == [];
    } else if v == 0 {
      OneByteLength(0, n - 1);
      assert Zeros(n - 2) + [0] == Zeros(n - 1);
    } else {
      OneByteLength(0, n - 1);
      assert Zeros(n - 2) + [0] == Zeros(n - 1);
    }
  }

  lemma TwoByteLength(v: nat, n: nat)
    requires v < 0x1_0000 && n >= 2
    ensures BigEndian(v, n) == Zeros(n - 2) + [v / 0x100, v % 0x100]
  {
    OneByteLength(v / 0x100, n - 1);
  }
}
