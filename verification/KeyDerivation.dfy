/** src/kernel/hmac_sha256.c and src/kernel/pbkdf2.c against section 2 of RFC 2104 and
    section 5.2 of RFC 8018. */
module KeyDerivation {
  import opened Bytes
  import Sha256

  const BLOCK := Sha256.BLOCK
  const DIGEST := Sha256.DIGEST
  const MAX_SALT := 64

  // ----- HMAC -----

  /** The key as one block: hashed if it is longer than a block, then zero-padded. */
  function KeyBlock(key: seq<byte>): (k: seq<byte>)
    ensures |k| == BLOCK
  {
    if |key| > BLOCK then Sha256.Digest(key) + Zeros(BLOCK - DIGEST) else key + Zeros(BLOCK - |key|)
  }

  /** H((K xor opad) || H((K xor ipad) || message)) */
  function Hmac(key: seq<byte>, message: seq<byte>): (d: seq<byte>)
    ensures |d| == DIGEST
  {
    var k := KeyBlock(key);
    Sha256.Digest(XorBytes(k, Repeat(0x5c, BLOCK))
                  + Sha256.Digest(XorBytes(k, Repeat(0x36, BLOCK)) + message))
  }

  method ComputeHmac(key: seq<byte>, message: seq<byte>) returns (out: seq<byte>)
    ensures out == Hmac(key, message)
  {
    hide Sha256.Digest, XorBytes, KeyBlock, Repeat;
    var keyBlock := new byte[BLOCK];
    FillKeyBlock(keyBlock, key);
    var ipad, opad := PadKey(keyBlock);
    var inner := Sha256.HashTwo(ipad, message);
    out := Sha256.HashTwo(opad, inner);
  }

  method FillKeyBlock(keyBlock: array<byte>, key: seq<byte>)
    requires keyBlock.Length == BLOCK
    modifies keyBlock
    ensures keyBlock[..] == KeyBlock(key)
  {
    hide Sha256.Digest;
    for i := 0 to BLOCK
      invariant forall j :: 0 <= j < i ==> keyBlock[j] == 0
    {
      keyBlock[i] := 0;
    }
    if |key| > BLOCK {
      var shortened := Sha256.Hash(key);
      CopyIn(keyBlock, shortened);
    } else {
      CopyIn(keyBlock, key);
    }
  }

  method CopyIn(block: array<byte>, data: seq<byte>)
    requires |data| <= block.Length && forall j :: 0 <= j < block.Length ==> block[j] == 0
    modifies block
    ensures block[..] == data + Zeros(block.Length - |data|)
  {
    for i := 0 to |data|
      invariant forall j :: 0 <= j < i ==> block[j] == data[j]
      invariant forall j :: i <= j < block.Length ==> block[j] == 0
    {
      block[i] := data[i];
    }
  }

  method PadKey(keyBlock: array<byte>) returns (ipad: seq<byte>, opad: seq<byte>)
    requires keyBlock.Length == BLOCK
    ensures ipad == XorBytes(keyBlock[..], Repeat(0x36, BLOCK))
    ensures opad == XorBytes(keyBlock[..], Repeat(0x5c, BLOCK))
  {
    var a, b := new byte[BLOCK], new byte[BLOCK];
    for i := 0 to BLOCK
      invariant forall j :: 0 <= j < i ==> a[j] == XorByte(keyBlock[j], 0x36) && b[j] == XorByte(keyBlock[j], 0x5c)
    {
      a[i] := XorByte(keyBlock[i], 0x36);
      b[i] := XorByte(keyBlock[i], 0x5c);
    }
    ipad, opad := a[..], b[..];
  }

  // ----- PBKDF2 -----

  /** U_j: the j-th iterate of the keyed hash, from 1 on. */
  function U(password: seq<byte>, salt: seq<byte>, index: nat, j: nat): (u: seq<byte>)
    requires j >= 1
    ensures |u| == DIGEST
  {
    if j == 1 then Hmac(password, salt + BigEndian(index, 4)) else Hmac(password, U(password, salt, index, j - 1))
  }

  /** T_index = U_1 xor ... xor U_c */
  function T(password: seq<byte>, salt: seq<byte>, index: nat, c: nat): (t: seq<byte>)
    requires c >= 1
    ensures |t| == DIGEST
  {
    if c == 1 then U(password, salt, index, 1)
    else XorBytes(T(password, salt, index, c - 1), U(password, salt, index, c))
  }

  /** T_1 || ... || T_n */
  function Blocks(password: seq<byte>, salt: seq<byte>, c: nat, n: nat): (b: seq<byte>)
    requires c >= 1
    ensures |b| == n * DIGEST
  {
    if n == 0 then [] else Blocks(password, salt, c, n - 1) + T(password, salt, n, c)
  }

  function BlockCount(length: nat): (n: nat)
    ensures length <= n * DIGEST < length + DIGEST
  {
    (length + DIGEST - 1) / DIGEST
  }

  /** The derived key: the first `length` bytes of the blocks. */
  function DerivedKey(password: seq<byte>, salt: seq<byte>, c: nat, length: nat): (k: seq<byte>)
    requires c >= 1
    ensures |k| == length
  {
    Blocks(password, salt, c, BlockCount(length))[..length]
  }

  lemma {:induction false} BlocksPrefix(password: seq<byte>, salt: seq<byte>, c: nat, m: nat, n: nat)
    requires c >= 1 && m <= n
    ensures Blocks(password, salt, c, m) <= Blocks(password, salt, c, n)
    decreases n
  {
    hide T;
    if m < n {
      BlocksPrefix(password, salt, c, m, n - 1);
    }
  }

  /** A shorter key is a prefix of a longer one. */
  lemma ShorterKeyIsPrefix(password: seq<byte>, salt: seq<byte>, c: nat, short: nat, long: nat)
    requires c >= 1 && short <= long
    ensures DerivedKey(password, salt, c, short) <= DerivedKey(password, salt, c, long)
  {
    assert BlockCount(short) <= BlockCount(long);
    BlocksPrefix(password, salt, c, BlockCount(short), BlockCount(long));
    hide Blocks;
  }

  /** The salt as the function uses it: at most the first 64 bytes. */
  function UsedSalt(salt: seq<byte>): seq<byte> {
    if |salt| > MAX_SALT then salt[..MAX_SALT] else salt
  }

  function UsedIterations(iterations: u32): (c: u32)
    ensures c >= 1
  {
    if iterations == 0 then 1 else iterations
  }

  /** The key of section 5.2 of RFC 8018 for salts of at most 64 bytes and at least one
      iteration; otherwise the salt is cut and zero iterations count as one. */
  method ComputeKey(password: seq<byte>, salt: seq<byte>, iterations: u32, out: array<byte>)
    requires out.Length < TWO32
    modifies out
    ensures out[..] == DerivedKey(password, UsedSalt(salt), UsedIterations(iterations), out.Length)
    ensures |salt| <= MAX_SALT && iterations >= 1 ==> out[..] == DerivedKey(password, salt, iterations, out.Length)
  {
    hide T, Blocks;
    var used := UsedSalt(salt);
    var c := UsedIterations(iterations);
    var produced, index := 0, 1;
    NoBlocks(password, used, c);
    while produced < out.Length
      invariant index >= 1 && produced <= out.Length
      invariant produced == (index - 1) * DIGEST
                || (produced == out.Length && produced <= (index - 1) * DIGEST < produced + DIGEST)
      invariant out[..produced] == Blocks(password, used, c, index - 1)[..produced]
    {
      var t := ComputeBlock(password, used, index, c);
      NextBlock(password, used, c, index);
      var remaining := out.Length - produced;
      var chunk := if remaining < DIGEST then remaining else DIGEST;
      CopyOut(out, produced, t, chunk);
      assert Blocks(password, used, c, index)[..produced + chunk]
             == Blocks(password, used, c, index - 1)[..produced] + t[..chunk];
      produced := produced + chunk;
      index := index + 1;
    }
    KeyFromBlocks(password, used, c, index - 1, out.Length);
  }

  method CopyOut(out: array<byte>, at: nat, t: seq<byte>, chunk: nat)
    requires at + chunk <= out.Length && chunk <= |t|
    modifies out
    ensures out[..at + chunk] == old(out[..at]) + t[..chunk]
  {
    for i := 0 to chunk
      invariant forall j :: 0 <= j < at ==> out[j] == old(out[j])
      invariant forall j :: 0 <= j < i ==> out[at + j] == t[j]
    {
      out[at + i] := t[i];
    }
  }

  lemma NoBlocks(password: seq<byte>, salt: seq<byte>, c: nat)
    requires c >= 1
    ensures Blocks(password, salt, c, 0) == []
  {
  }

  lemma NextBlock(password: seq<byte>, salt: seq<byte>, c: nat, n: nat)
    requires c >= 1 && n >= 1
    ensures Blocks(password, salt, c, n) == Blocks(password, salt, c, n - 1) + T(password, salt, n, c)
  {
  }

  lemma KeyFromBlocks(password: seq<byte>, salt: seq<byte>, c: nat, n: nat, length: nat)
    requires c >= 1 && length <= n * DIGEST < length + DIGEST
    ensures Blocks(password, salt, c, n)[..length] == DerivedKey(password, salt, c, length)
  {
    assert n == BlockCount(length);
    hide Blocks;
  }

  /** One block: the first hash, then c - 1 more, all xored together. */
  method ComputeBlock(password: seq<byte>, salt: seq<byte>, index: nat, c: u32) returns (t: seq<byte>)
    requires c >= 1
    ensures t == T(password, salt, index, c)
  {
    hide Hmac;
    IndexBytes(index);
    var u := ComputeHmac(password, salt + [(index / Pow256(3)) % 256, (index / Pow256(2)) % 256,
                                           (index / Pow256(1)) % 256, (index / Pow256(0)) % 256]);
    t := u;
    for iteration := 1 to c
      invariant u == U(password, salt, index, iteration) && t == T(password, salt, index, iteration)
    {
      u := ComputeHmac(password, u);
      t := XorInto(t, u);
    }
  }

  lemma IndexBytes(index: nat)
    ensures BigEndian(index, 4) == [(index / Pow256(3)) % 256, (index / Pow256(2)) % 256,
                                    (index / Pow256(1)) % 256, (index / Pow256(0)) % 256]
  {
    BigEndianAt(index, 4, 0);
    BigEndianAt(index, 4, 1);
    BigEndianAt(index, 4, 2);
    BigEndianAt(index, 4, 3);
    hide BigEndian, Pow256;
  }

  /** xor_block */
  method XorInto(dest: seq<byte>, src: seq<byte>) returns (r: seq<byte>)
    requires |dest| == |src|
    ensures r == XorBytes(dest, src)
  {
    var a := new byte[|dest|](i requires 0 <= i < |dest| => dest[i]);
    for i := 0 to |src|
      invariant forall j :: i <= j < a.Length ==> a[j] == dest[j]
      invariant forall j :: 0 <= j < i ==> a[j] == XorByte(dest[j], src[j])
    {
      a[i] := XorByte(a[i], src[i]);
    }
    r := a[..];
  }
}
