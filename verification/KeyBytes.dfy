/** The keyed hash and the derived key, byte by byte (section 2 of RFC 2104, section 5.2 of RFC 8018). */
module KeyBytes {
  import opened Bytes
  import opened KeyDerivation
  import Sha256

  // ----- HMAC -----

  /** Byte j of the key as one block. */
  function KeyByte(key: seq<byte>, j: nat): byte
    requires j < 64
  {
    if |key| <= 64 then if j < |key| then key[j] else 0
    else if j < 32 then Sha256.Digest(key)[j] else 0
  }

  lemma BlockByte(key: seq<byte>, j: nat)
    requires j < 64
    ensures KeyBlock(key)[j] == KeyByte(key, j)
  {
    hide Sha256.Digest;
  }

  /** b is the key block with every byte turned over at the set bits of the pad. */
  ghost predicate Padded(b: seq<byte>, key: seq<byte>, pad: byte) {
    |b| == 64 && forall j, i :: 0 <= j < 64 && 0 <= i < 8 ==> Bit(b[j], i) == (Bit(KeyByte(key, j), i) != Bit(pad, i))
  }

  lemma XoredIsPadded(key: seq<byte>, pad: byte)
    ensures Padded(XorBytes(KeyBlock(key), Repeat(pad, BLOCK)), key, pad)
  {
    hide Sha256.Digest, Bit, Xor, KeyBlock, KeyByte;
    forall j, i | 0 <= j < 64 && 0 <= i < 8
      ensures Bit(XorBytes(KeyBlock(key), Repeat(pad, BLOCK))[j], i) == (Bit(KeyByte(key, j), i) != Bit(pad, i))
    {
      BlockByte(key, j);
      XorBits(KeyBlock(key)[j], pad, i);
    }
  }

  /** The outer hash is over the key block at 0x5c and the inner digest, the inner one over the key block at 0x36
      and the message. */
  lemma HmacBytes(key: seq<byte>, message: seq<byte>) returns (inner: seq<byte>, outer: seq<byte>)
    ensures Padded(inner, key, 0x36) && Padded(outer, key, 0x5c)
    ensures Hmac(key, message) == Sha256.Digest(outer + Sha256.Digest(inner + message))
  {
    hide Sha256.Digest, Padded;
    inner, outer := XorBytes(KeyBlock(key), Repeat(0x36, BLOCK)), XorBytes(KeyBlock(key), Repeat(0x5c, BLOCK));
    XoredIsPadded(key, 0x36);
    XoredIsPadded(key, 0x5c);
  }

  // ----- PBKDF2 -----

  /** The first iterate is the keyed hash of the salt and the block number in four bytes, high byte first; each
      later one is the keyed hash of the one before. */
  lemma Iterates(password: seq<byte>, salt: seq<byte>, index: u32, j: nat)
    requires j >= 1
    ensures U(password, salt, index, 1)
         == Hmac(password, salt + [index / 0x100_0000, index / 0x1_0000 % 0x100, index / 0x100 % 0x100, index % 0x100])
    ensures U(password, salt, index, j + 1) == Hmac(password, U(password, salt, index, j))
  {
    hide Hmac;
    FourBytes(index);
  }

  lemma FourBytes(v: u32)
    ensures BigEndian(v, 4) == [v / 0x100_0000, v / 0x1_0000 % 0x100, v / 0x100 % 0x100, v % 0x100]
  {
    var w: nat := v;
    BigEndianAt(w, 4, 0); BigEndianAt(w, 4, 1); BigEndianAt(w, 4, 2); BigEndianAt(w, 4, 3);
    assert Pow256(0) == 1 && Pow256(1) == 0x100 && Pow256(2) == 0x1_0000 && Pow256(3) == 0x100_0000;
    hide BigEndian, Pow256;
  }

  /** Bit i of byte k is set in an odd number of the first c iterates. */
  predicate OddlyOften(password: seq<byte>, salt: seq<byte>, index: nat, c: nat, k: nat, i: nat)
    requires k < 32
  {
    if c == 0 then false
    else OddlyOften(password, salt, index, c - 1, k, i) != Bit(U(password, salt, index, c)[k], i)
  }

  lemma {:induction false} BlockBits(password: seq<byte>, salt: seq<byte>, index: nat, c: nat, k: nat, i: nat)
    requires c >= 1 && k < 32
    ensures Bit(T(password, salt, index, c)[k], i) == OddlyOften(password, salt, index, c, k, i)
  {
    hide U, Bit, Xor;
    if c > 1 {
      BlockBits(password, salt, index, c - 1, k, i);
      XorBits(T(password, salt, index, c - 1)[k], U(password, salt, index, c)[k], i);
    }
  }

  lemma {:induction false} BlocksAt(password: seq<byte>, salt: seq<byte>, c: nat, n: nat, at: nat)
    requires c >= 1 && at < n * DIGEST
    ensures Blocks(password, salt, c, n)[at] == T(password, salt, at / 32 + 1, c)[at % 32]
    decreases n
  {
    hide T;
    if at < (n - 1) * DIGEST {
      BlocksAt(password, salt, c, n - 1, at);
    } else {
      assert at / 32 == n - 1 && at - (n - 1) * DIGEST == at % 32;
    }
  }

  /** So byte `at` of a derived key is byte at % 32 of the sum of the c iterates of block at / 32 + 1. */
  lemma DerivedBits(password: seq<byte>, salt: seq<byte>, c: nat, length: nat, at: nat, i: nat)
    requires c >= 1 && at < length
    ensures Bit(DerivedKey(password, salt, c, length)[at], i)
         == OddlyOften(password, salt, at / 32 + 1, c, at % 32, i)
  {
    hide T, U, Bit, Blocks, OddlyOften;
    BlocksAt(password, salt, c, BlockCount(length), at);
    BlockBits(password, salt, at / 32 + 1, c, at % 32, i);
  }

  /** The salt is cut to its first 64 bytes, and no iterations count as one. */
  lemma Clamped(salt: seq<byte>, iterations: u32)
    ensures UsedSalt(salt) == (if |salt| <= 64 then salt else salt[..64])
    ensures UsedIterations(iterations) == (if iterations == 0 then 1 else iterations)
  {
  }
}
