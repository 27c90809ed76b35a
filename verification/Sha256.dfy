/** The streaming SHA-256 of src/kernel/sha256.c against the one-shot definition of
    FIPS 180-4: padding (section 5.1.1), schedule and rounds (section 6.2.2). */
module Sha256 {
  import opened Bytes

  const BLOCK := 64
  const DIGEST := 32
  const LENGTH_MODULUS: nat := 0x1_0000_0000_0000_0000

  type word = bv32

  /** The table of round constants, a row of eight at a time. */
  function KRow(r: nat): (k: seq<word>)
    requires r < 8
    ensures |k| == 8
  {
    if r == 0 then [0x428a2f98, 0x71374491, 0xb5c0fbcf, 0xe9b5dba5, 0x3956c25b, 0x59f111f1, 0x923f82a4, 0xab1c5ed5]
    else if r == 1 then [0xd807aa98, 0x12835b01, 0x243185be, 0x550c7dc3, 0x72be5d74, 0x80deb1fe, 0x9bdc06a7, 0xc19bf174]
    else if r == 2 then [0xe49b69c1, 0xefbe4786, 0x0fc19dc6, 0x240ca1cc, 0x2de92c6f, 0x4a7484aa, 0x5cb0a9dc, 0x76f988da]
    else if r == 3 then [0x983e5152, 0xa831c66d, 0xb00327c8, 0xbf597fc7, 0xc6e00bf3, 0xd5a79147, 0x06ca6351, 0x14292967]
    else if r == 4 then [0x27b70a85, 0x2e1b2138, 0x4d2c6dfc, 0x53380d13, 0x650a7354, 0x766a0abb, 0x81c2c92e, 0x92722c85]
    else if r == 5 then [0xa2bfe8a1, 0xa81a664b, 0xc24b8b70, 0xc76c51a3, 0xd192e819, 0xd6990624, 0xf40e3585, 0x106aa070]
    else if r == 6 then [0x19a4c116, 0x1e376c08, 0x2748774c, 0x34b0bcb5, 0x391c0cb3, 0x4ed8aa4a, 0x5b9cca4f, 0x682e6ff3]
    else [0x748f82ee, 0x78a5636f, 0x84c87814, 0x8cc70208, 0x90befffa, 0xa4506ceb, 0xbef9a3f7, 0xc67178f2]
  }

  function K(t: nat): word
    requires t < 64
  {
    KRow(t / 8)[t % 8]
  }

  const H0: seq<word> := [0x6a09e667, 0xbb67ae85, 0x3c6ef372, 0xa54ff53a, 0x510e527f, 0x9b05688c, 0x1f83d9ab,
                          0x5be0cd19]

  /** Addition modulo 2^32. */
  function Plus(x: word, y: word): word { x + y }

  // ----- the compression function as the standard writes it -----

  function SmallSigma0(x: word): word { ((x >> 7) | (x << 25)) ^ ((x >> 18) | (x << 14)) ^ (x >> 3) }
  function SmallSigma1(x: word): word { ((x >> 17) | (x << 15)) ^ ((x >> 19) | (x << 13)) ^ (x >> 10) }
  function BigSigma0(x: word): word { ((x >> 2) | (x << 30)) ^ ((x >> 13) | (x << 19)) ^ ((x >> 22) | (x << 10)) }
  function BigSigma1(x: word): word { ((x >> 6) | (x << 26)) ^ ((x >> 11) | (x << 21)) ^ ((x >> 25) | (x << 7)) }
  function Ch(x: word, y: word, z: word): word { (x & y) ^ (!x & z) }
  function Maj(x: word, y: word, z: word): word { (x & y) ^ (x & z) ^ (y & z) }

  function BigEndianWord(b: seq<byte>): word
    requires |b| == 4
  {
    ((b[0] as word) << 24) | ((b[1] as word) << 16) | ((b[2] as word) << 8) | (b[3] as word)
  }

  /** W_t of section 6.2.2, step 1 (the four terms added in the order of the loop). */
  function Schedule(block: seq<byte>, t: nat): word
    requires |block| == BLOCK
  {
    if t < 16 then BigEndianWord(block[4 * t..4 * t + 4])
    else Plus(Plus(Plus(Schedule(block, t - 16), SmallSigma0(Schedule(block, t - 15))), Schedule(block, t - 7)),
              SmallSigma1(Schedule(block, t - 2)))
  }

  datatype Vars = Vars(a: word, b: word, c: word, d: word, e: word, f: word, g: word, h: word)

  function Round(v: Vars, k: word, w: word): Vars {
    var t1 := Plus(Plus(Plus(Plus(v.h, BigSigma1(v.e)), Ch(v.e, v.f, v.g)), k), w);
    var t2 := Plus(BigSigma0(v.a), Maj(v.a, v.b, v.c));
    Vars(Plus(t1, t2), v.a, v.b, v.c, Plus(v.d, t1), v.e, v.f, v.g)
  }

  /** The working variables after the first t rounds. */
  function Rounds(v: Vars, block: seq<byte>, t: nat): Vars
    requires |block| == BLOCK && t <= 64
  {
    if t == 0 then v else Round(Rounds(v, block, t - 1), K(t - 1), Schedule(block, t - 1))
  }

  function FromSeq(h: seq<word>): Vars
    requires |h| == 8
  {
    Vars(h[0], h[1], h[2], h[3], h[4], h[5], h[6], h[7])
  }

  function Compress(h: seq<word>, block: seq<byte>): (r: seq<word>)
    requires |h| == 8 && |block| == BLOCK
    ensures |r| == 8
  {
    Added(h, Rounds(FromSeq(h), block, 64))
  }

  function Added(h: seq<word>, v: Vars): (r: seq<word>)
    requires |h| == 8
    ensures |r| == 8
  {
    [Plus(h[0], v.a), Plus(h[1], v.b), Plus(h[2], v.c), Plus(h[3], v.d),
     Plus(h[4], v.e), Plus(h[5], v.f), Plus(h[6], v.g), Plus(h[7], v.h)]
  }

  // ----- the hash of a whole message -----

  function Fold(m: seq<byte>): (h: seq<word>)
    requires |m| % BLOCK == 0
    ensures |h| == 8
  {
    if m == [] then H0 else Compress(Fold(m[..|m| - BLOCK]), m[|m| - BLOCK..])
  }

  /** The number of zero bytes: the least that makes the length right. */
  function PadZeros(length: nat): (k: nat)
    ensures k < BLOCK && (length + 1 + k) % BLOCK == 56
  {
    (119 - length % BLOCK) % BLOCK
  }

  lemma BlockRounds(n: nat)
    requires n % BLOCK == 56
    ensures (n + 8) % BLOCK == 0
  {
  }

  function Pad(m: seq<byte>): (p: seq<byte>)
    ensures |p| % BLOCK == 0
  {
    BlockRounds(|m| + 1 + PadZeros(|m|));
    m + [0x80] + Zeros(PadZeros(|m|)) + BigEndian((8 * |m|) % LENGTH_MODULUS, 8)
  }

  function LowByte(x: word): byte { ((x & 0xFF) as bv8) as int }

  function WordBytes(x: word): (b: seq<byte>)
    ensures |b| == 4
  {
    [LowByte(x >> 24), LowByte(x >> 16), LowByte(x >> 8), LowByte(x)]
  }

  function DigestBytes(h: seq<word>): (d: seq<byte>)
    ensures |d| == 4 * |h|
  {
    seq(4 * |h|, i requires 0 <= i < 4 * |h| => WordBytes(h[i / 4])[i % 4])
  }

  function Digest(m: seq<byte>): (d: seq<byte>)
    ensures |d| == DIGEST
  {
    DigestBytes(Fold(Pad(m)))
  }

  lemma FoldSplits(a: seq<byte>, block: seq<byte>)
    requires |a| % BLOCK == 0 && |block| == BLOCK
    ensures Fold(a + block) == Compress(Fold(a), block)
  {
    var m := a + block;
    assert m[..|m| - BLOCK] == a && m[|m| - BLOCK..] == block;
  }

  // ----- the streaming context -----

  class Context {
    const state: array<word>
    const buffer: array<byte>
    var bitLength: nat
    var bufferLength: nat
    ghost var message: seq<byte>

    ghost predicate Valid()
      reads this, state, buffer
    {
      && state.Length == 8 && buffer.Length == BLOCK && bufferLength < BLOCK
      && bitLength == (8 * |message|) % LENGTH_MODULUS
      && Holds(message)
    }

    /** state and buffer together stand for the bytes m. */
    ghost predicate Holds(m: seq<byte>)
      reads this`bufferLength, state, buffer
      requires state.Length == 8 && buffer.Length == BLOCK
    {
      && bufferLength <= BLOCK && bufferLength <= |m| && (|m| - bufferLength) % BLOCK == 0
      && state[..] == Fold(m[..|m| - bufferLength])
      && buffer[..bufferLength] == m[|m| - bufferLength..]
    }

    constructor ()
      ensures Valid() && message == [] && fresh(state) && fresh(buffer)
    {
      state := new word[8](i requires 0 <= i < 8 => H0[i]);
      buffer := new byte[BLOCK];
      bitLength := 0;
      bufferLength := 0;
      message := [];
      new;
      assert state[..] == H0;
    }

    method Transform(block: seq<byte>)
      requires state.Length == 8 && |block| == BLOCK
      modifies state
      ensures state[..] == Compress(old(state[..]), block)
    {
      hide Schedule, Rounds, Plus, FromSeq, Added;
      var w := ExpandSchedule(block);
      var v := MixSchedule(FromSeq(state[..]), block, w);
      AddVars(v);
    }

    method Update(data: seq<byte>)
      requires Valid()
      modifies this, state, buffer
      ensures Valid() && message == old(message) + data
    {
      hide Fold, Compress, Holds;
      ghost var m := message;
      bitLength := (bitLength + 8 * |data|) % LENGTH_MODULUS;
      LengthAdds(|m|, |data|);
      var offset := 0;
      assert m + data[..0] == m;
      if bufferLength > 0 {
        offset := TopUp(data, m);
      }
      offset := WholeBlocks(data, offset, m);
      KeepRest(data, offset, m);
      assert m + data[..|data|] == m + data;
      message := m + data;
    }

    /** Fills the buffer as far as the data goes and compresses it if that makes it full. */
    method TopUp(data: seq<byte>, ghost m: seq<byte>) returns (offset: nat)
      requires state.Length == 8 && buffer.Length == BLOCK && 0 < bufferLength < BLOCK && Holds(m)
      modifies this`bufferLength, state, buffer
      ensures offset <= |data| && Holds(m + data[..offset]) && bufferLength < BLOCK
      ensures bufferLength == 0 || offset == |data|
    {
      hide Fold, Compress;
      var needed := BLOCK - bufferLength;
      var take := if |data| < needed then |data| else needed;
      ghost var start := bufferLength;
      for i := 0 to take
        invariant bufferLength == start && state[..] == old(state[..])
        invariant forall j :: 0 <= j < start ==> buffer[j] == old(buffer[j])
        invariant forall j :: 0 <= j < i ==> buffer[start + j] == data[j]
      {
        buffer[bufferLength + i] := data[i];
      }
      bufferLength := bufferLength + take;
      offset := take;
      ghost var m' := m + data[..take];
      assert m'[..|m'| - bufferLength] == m[..|m| - start];
      assert buffer[..bufferLength] == old(buffer[..bufferLength]) + data[..take];
      assert buffer[..bufferLength] == m'[|m'| - bufferLength..];
      if bufferLength == BLOCK {
        FlushBuffer(m');
      }
    }

    /** Compresses a full buffer. */
    method FlushBuffer(ghost m: seq<byte>)
      requires state.Length == 8 && buffer.Length == BLOCK && bufferLength == BLOCK && Holds(m)
      modifies this`bufferLength, state
      ensures bufferLength == 0 && Holds(m) && |m| % BLOCK == 0 && state[..] == Fold(m)
    {
      hide Fold, Compress;
      FoldSplits(m[..|m| - BLOCK], buffer[..]);
      assert m[..|m| - BLOCK] + buffer[..] == m;
      Transform(buffer[..]);
      bufferLength := 0;
      assert m[..|m| - 0] == m;
    }

    /** Compresses block after block straight from the input. */
    method WholeBlocks(data: seq<byte>, start: nat, ghost m: seq<byte>) returns (offset: nat)
      requires state.Length == 8 && buffer.Length == BLOCK && start <= |data|
      requires bufferLength < BLOCK && Holds(m + data[..start]) && (bufferLength == 0 || start == |data|)
      modifies state
      ensures offset <= |data| && |data| - offset < BLOCK && Holds(m + data[..offset])
      ensures bufferLength == 0 || offset == |data|
    {
      hide Fold, Compress;
      offset := start;
      while |data| - offset >= BLOCK
        invariant start <= offset <= |data| && Holds(m + data[..offset])
        invariant bufferLength == 0 || offset == |data|
      {
        ghost var before := m + data[..offset];
        var block := data[offset..offset + BLOCK];
        assert before[..|before| - 0] == before;
        FoldSplits(before, block);
        Transform(block);
        offset := offset + BLOCK;
        assert m + data[..offset] == before + block;
        assert (before + block)[..|before + block| - 0] == before + block;
      }
    }

    /** Keeps the last bytes, fewer than a block, for later. */
    method KeepRest(data: seq<byte>, start: nat, ghost m: seq<byte>)
      requires state.Length == 8 && buffer.Length == BLOCK && start <= |data| && |data| - start < BLOCK
      requires Holds(m + data[..start]) && bufferLength < BLOCK && (bufferLength == 0 || start == |data|)
      modifies this`bufferLength, buffer
      ensures bufferLength < BLOCK && Holds(m + data)
    {
      hide Fold, Compress, Holds;
      var offset := start;
      while offset < |data|
        invariant start <= offset <= |data| && bufferLength + (|data| - offset) < BLOCK
        invariant Holds(m + data[..offset])
      {
        AppendByte(data[offset], m + data[..offset]);
        assert m + data[..offset + 1] == m + data[..offset] + [data[offset]];
        offset := offset + 1;
      }
      assert data[..|data|] == data;
    }

    method AppendByte(b: byte, ghost m: seq<byte>)
      requires state.Length == 8 && buffer.Length == BLOCK && bufferLength < BLOCK && Holds(m)
      modifies this`bufferLength, buffer
      ensures bufferLength == old(bufferLength) + 1 && Holds(m + [b])
    {
      hide Fold, Compress;
      buffer[bufferLength] := b;
      bufferLength := bufferLength + 1;
      ghost var m' := m + [b];
      assert m'[..|m'| - bufferLength] == m[..|m| - old(bufferLength)];
      assert buffer[..bufferLength] == old(buffer[..bufferLength]) + [b];
    }

    /** The digest of everything that was fed in, however it was split. */
    method Final() returns (out: seq<byte>)
      requires Valid()
      modifies this, state, buffer
      ensures out == Digest(old(message))
    {
      hide Fold, Compress, Pad, Holds, DigestBytes, BigEndian, Zeros, PadZeros;
      ghost var m := message;
      var length := bitLength;
      Update([0x80]);
      AppendZeros(m);
      AppendLength(length, message);
      ghost var padded := message + BigEndian(length, 8);
      PadUnfolds(m);
      FlushBuffer(padded);
      out := DigestBytes(state[..]);
    }

    /** The zero-padding loop: it stops, and after the least number of zeros. */
    method AppendZeros(ghost m: seq<byte>)
      requires Valid() && message == m + [0x80]
      modifies this, state, buffer
      ensures Valid() && bufferLength == 56 && message == m + [0x80] + Zeros(PadZeros(|m|))
    {
      hide Holds, PadZeros, Zeros;
      ghost var k := 0;
      NoZeros(m);
      Buffered();
      while bufferLength != 56
        invariant Valid() && k <= PadZeros(|m|) && message == m + [0x80] + Zeros(k)
        invariant bufferLength < BLOCK && (|m| + 1 + k - bufferLength) % BLOCK == 0
        decreases PadZeros(|m|) - k
      {
        PadProgress(|m|, k, bufferLength);
        Update([0x00]);
        OneMoreZero(m, k);
        k := k + 1;
        Buffered();
      }
      PadDone(|m|, k, bufferLength);
    }

    /** What the buffer holds is the message modulo the block size. */
    lemma Buffered()
      requires Valid()
      ensures bufferLength <= |message| && (|message| - bufferLength) % BLOCK == 0
    {
    }

    /** Writes the length straight into the buffer. */
    method AppendLength(length: nat, ghost m: seq<byte>)
      requires state.Length == 8 && buffer.Length == BLOCK && bufferLength == 56 && Holds(m)
      modifies this`bufferLength, buffer
      ensures bufferLength == BLOCK && Holds(m + BigEndian(length, 8))
    {
      hide Fold, Compress, Holds;
      ghost var bytes := BigEndian(length, 8);
      assert m + bytes[..0] == m;
      for i := 0 to 8
        invariant bufferLength == 56 + i && Holds(m + bytes[..i])
      {
        BigEndianAt(length, 8, i);
        AppendByte((length / Pow256(7 - i)) % 256, m + bytes[..i]);
        assert m + bytes[..i + 1] == m + bytes[..i] + [bytes[i]];
      }
      assert bytes[..8] == bytes;
    }

    /** state[i] += the i-th working variable */
    method AddVars(v: Vars)
      requires state.Length == 8
      modifies state
      ensures state[..] == Added(old(state[..]), v)
    {
      hide Plus;
      state[0], state[1], state[2], state[3] :=
        Plus(state[0], v.a), Plus(state[1], v.b), Plus(state[2], v.c), Plus(state[3], v.d);
      state[4], state[5], state[6], state[7] :=
        Plus(state[4], v.e), Plus(state[5], v.f), Plus(state[6], v.g), Plus(state[7], v.h);
    }
  }

  /** The 64 rounds. */
  method MixSchedule(v0: Vars, block: seq<byte>, w: array<word>) returns (v: Vars)
    requires |block| == BLOCK && w.Length == 64 && forall t :: 0 <= t < 64 ==> w[t] == Schedule(block, t)
    ensures v == Rounds(v0, block, 64)
  {
    hide Schedule, BigSigma0, BigSigma1, Ch, Maj, Plus, K;
    v := v0;
    for i := 0 to 64
      invariant v == Rounds(v0, block, i)
    {
      var s1 := BigSigma1(v.e);
      var temp1 := Plus(Plus(Plus(Plus(v.h, s1), Ch(v.e, v.f, v.g)), K(i)), w[i]);
      var s0 := BigSigma0(v.a);
      var temp2 := Plus(s0, Maj(v.a, v.b, v.c));
      v := Vars(Plus(temp1, temp2), v.a, v.b, v.c, Plus(v.d, temp1), v.e, v.f, v.g);
    }
  }

  method ExpandSchedule(block: seq<byte>) returns (w: array<word>)
    requires |block| == BLOCK
    ensures fresh(w) && w.Length == 64 && forall t :: 0 <= t < 64 ==> w[t] == Schedule(block, t)
  {
    hide Schedule;
    w := new word[64];
    LoadWords(block, w);
    ExtendWords(block, w);
  }

  lemma ScheduleStep(block: seq<byte>, t: nat)
    requires |block| == BLOCK && 16 <= t
    ensures Schedule(block, t) == Plus(Plus(Plus(Schedule(block, t - 16), SmallSigma0(Schedule(block, t - 15))),
                                            Schedule(block, t - 7)), SmallSigma1(Schedule(block, t - 2)))
  {
  }

  method ExtendWords(block: seq<byte>, w: array<word>)
    requires |block| == BLOCK && w.Length == 64 && forall t :: 0 <= t < 16 ==> w[t] == Schedule(block, t)
    modifies w
    ensures forall t :: 0 <= t < 64 ==> w[t] == Schedule(block, t)
  {
    hide SmallSigma0, SmallSigma1, Plus, Schedule;
    for i := 16 to 64
      invariant forall t :: 0 <= t < i ==> w[t] == Schedule(block, t)
    {
      ScheduleStep(block, i);
      var s0, s1 := SmallSigma0(w[i - 15]), SmallSigma1(w[i - 2]);
      w[i] := Plus(Plus(Plus(w[i - 16], s0), w[i - 7]), s1);
    }
  }

  /** The first sixteen words are the block itself. */
  method LoadWords(block: seq<byte>, w: array<word>)
    requires |block| == BLOCK && w.Length == 64
    modifies w
    ensures forall t :: 0 <= t < 16 ==> w[t] == Schedule(block, t)
  {
    hide BigEndianWord;
    for i := 0 to 16
      invariant forall t :: 0 <= t < i ==> w[t] == Schedule(block, t)
    {
      w[i] := BigEndianWord([block[i * 4], block[i * 4 + 1], block[i * 4 + 2], block[i * 4 + 3]]);
      assert block[4 * i..4 * i + 4] == [block[i * 4], block[i * 4 + 1], block[i * 4 + 2], block[i * 4 + 3]];
    }
  }

  lemma LengthAdds(a: nat, b: nat)
    ensures ((8 * a) % LENGTH_MODULUS + 8 * b) % LENGTH_MODULUS == (8 * (a + b)) % LENGTH_MODULUS
  {
  }

  lemma NoZeros(m: seq<byte>)
    ensures m + [0x80] + Zeros(0) == m + [0x80]
  {
  }

  lemma OneMoreZero(m: seq<byte>, k: nat)
    ensures m + [0x80] + Zeros(k) + [0x00] == m + [0x80] + Zeros(k + 1)
  {
  }

  lemma PadProgress(length: nat, k: nat, buffered: nat)
    requires k <= PadZeros(length) && buffered < BLOCK && (length + 1 + k - buffered) % BLOCK == 0 && buffered != 56
    ensures k < PadZeros(length)
  {
  }

  lemma PadDone(length: nat, k: nat, buffered: nat)
    requires k <= PadZeros(length) && buffered == 56 && (length + 1 + k - buffered) % BLOCK == 0
    ensures k == PadZeros(length)
  {
  }

  lemma PadUnfolds(m: seq<byte>)
    ensures Pad(m) == m + [0x80] + Zeros(PadZeros(|m|)) + BigEndian((8 * |m|) % LENGTH_MODULUS, 8)
  {
  }

  // ----- any split of the message -----

  function Concat(chunks: seq<seq<byte>>): seq<byte> {
    if chunks == [] then [] else Concat(chunks[..|chunks| - 1]) + chunks[|chunks| - 1]
  }

  /** init, one update for each chunk, final */
  method HashChunks(chunks: seq<seq<byte>>) returns (out: seq<byte>)
    ensures out == Digest(Concat(chunks))
  {
    hide Digest;
    var ctx := new Context();
    for i := 0 to |chunks|
      invariant ctx.Valid() && fresh(ctx) && fresh(ctx.state) && fresh(ctx.buffer)
      invariant ctx.message == Concat(chunks[..i])
    {
      ctx.Update(chunks[i]);
      assert chunks[..i + 1][..i] == chunks[..i];
    }
    assert chunks[..|chunks|] == chunks;
    out := ctx.Final();
  }

  /** init, two updates, final: how hmac_sha256.c and fs.c hash a concatenation. */
  method HashTwo(a: seq<byte>, b: seq<byte>) returns (out: seq<byte>)
    ensures out == Digest(a + b)
  {
    hide Digest;
    var ctx := new Context();
    ctx.Update(a);
    assert [] + a == a;
    ctx.Update(b);
    out := ctx.Final();
  }

  /** The one-shot wrapper. */
  method Hash(data: seq<byte>) returns (out: seq<byte>)
    ensures out == Digest(data)
  {
    hide Digest;
    var ctx := new Context();
    ctx.Update(data);
    assert [] + data == data;
    out := ctx.Final();
  }
}
