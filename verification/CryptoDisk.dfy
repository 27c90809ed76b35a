/** The sector cipher of src/kernel/crypto_disk.c: AES-256 in counter mode (section 6.5 of
    NIST SP 800-38A), with the sector number and the block number in the counter. */
module CryptoDisk {
  import opened Bytes
  import opened FsFormat
  import Aes256

  const BLOCKS_PER_SECTOR := 32
  const NONCE := 8

  // ----- the keystream -----

  function CounterBlock(nonce: seq<byte>, lba: nat, block: nat): (c: seq<byte>)
    requires |nonce| == NONCE
    ensures |c| == Aes256.BLOCK
  {
    nonce + BigEndian(lba * BLOCKS_PER_SECTOR + block, 8)
  }

  function KeystreamBlock(schedule: seq<byte>, nonce: seq<byte>, lba: nat, block: nat): (k: seq<byte>)
    requires |schedule| == Aes256.SCHEDULE_BYTES && |nonce| == NONCE
    ensures |k| == Aes256.BLOCK
  {
    Aes256.Encrypt(schedule, CounterBlock(nonce, lba, block))
  }

  function Keystream(schedule: seq<byte>, nonce: seq<byte>, lba: nat): (k: Sector)
    requires |schedule| == Aes256.SCHEDULE_BYTES && |nonce| == NONCE
  {
    seq(SECTOR, i requires 0 <= i < SECTOR => KeystreamBlock(schedule, nonce, lba, i / 16)[i % 16])
  }

  function CipherSector(schedule: seq<byte>, nonce: seq<byte>, lba: nat, data: Sector): (r: Sector)
    requires |schedule| == Aes256.SCHEDULE_BYTES && |nonce| == NONCE
  {
    XorBytes(data, Keystream(schedule, nonce, lba))
  }

  /** Encrypting twice gives the plaintext back: reading undoes writing. */
  lemma CipherSectorTwice(schedule: seq<byte>, nonce: seq<byte>, lba: nat, data: Sector)
    requires |schedule| == Aes256.SCHEDULE_BYTES && |nonce| == NONCE
    ensures CipherSector(schedule, nonce, lba, CipherSector(schedule, nonce, lba, data)) == data
  {
    XorBytesCancels(data, Keystream(schedule, nonce, lba));
  }

  /** What is handed to the cipher, byte by byte: the nonce, then the place on the disk, high byte first. */
  lemma CounterBytes(nonce: seq<byte>, lba: nat, block: nat, i: nat)
    requires |nonce| == NONCE && i < 8
    ensures CounterBlock(nonce, lba, block)[i] == nonce[i]
    ensures CounterBlock(nonce, lba, block)[8 + i] == ((lba * 32 + block) / Pow256(7 - i)) % 256
  {
    BigEndianAt(lba * 32 + block, 8, i);
    hide BigEndian, Pow256;
  }

  /** The sixteen bytes c: the nonce, then the eight base-256 digits of v. */
  ghost predicate Counts(c: seq<byte>, nonce: seq<byte>, v: nat)
    requires |nonce| == NONCE
  {
    && |c| == 16
    && (forall i :: 0 <= i < 8 ==> c[i] == nonce[i])
    && (forall i :: 8 <= i < 16 ==> c[i] == (v / Pow256(15 - i)) % 256)
  }

  lemma CounterCounts(nonce: seq<byte>, lba: nat, block: nat, c: seq<byte>)
    requires |nonce| == NONCE && Counts(c, nonce, lba * 32 + block)
    ensures c == CounterBlock(nonce, lba, block)
  {
    assert |c| == 16;
    hide Counts, CounterBlock;
    forall i | 0 <= i < 16 ensures c[i] == CounterBlock(nonce, lba, block)[i] {
      CounterAt(nonce, lba, block, c, i);
    }
  }

  lemma CounterAt(nonce: seq<byte>, lba: nat, block: nat, c: seq<byte>, i: nat)
    requires |nonce| == NONCE && Counts(c, nonce, lba * 32 + block) && i < 16
    ensures |c| == 16 && c[i] == CounterBlock(nonce, lba, block)[i]
  {
    hide CounterBlock, Pow256;
    if i < 8 {
      CounterBytes(nonce, lba, block, i);
    } else {
      CounterBytes(nonce, lba, block, i - 8);
      assert 15 - i == 7 - (i - 8);
    }
  }

  /** So every bit of a stored sector is that bit of the data, turned over where the cipher of that block has
      a one. */
  lemma StoredBits(schedule: seq<byte>, nonce: seq<byte>, lba: nat, data: Sector, c: seq<byte>, k: nat, j: nat)
    requires |schedule| == Aes256.SCHEDULE_BYTES && |nonce| == NONCE && k < SECTOR
    requires Counts(c, nonce, lba * 32 + k / 16)
    ensures Bit(CipherSector(schedule, nonce, lba, data)[k], j)
         == (Bit(data[k], j) != Bit(Aes256.Encrypt(schedule, c)[k % 16], j))
  {
    CounterCounts(nonce, lba, k / 16, c);
    hide Counts, CounterBlock, Aes256.Encrypt, Bit, Xor, Pow256, Keystream;
    StoredByte(schedule, nonce, lba, data, k);
    XorBits(data[k], KeystreamBlock(schedule, nonce, lba, k / 16)[k % 16], j);
  }

  lemma StoredByte(schedule: seq<byte>, nonce: seq<byte>, lba: nat, data: Sector, k: nat)
    requires |schedule| == Aes256.SCHEDULE_BYTES && |nonce| == NONCE && k < SECTOR
    ensures CipherSector(schedule, nonce, lba, data)[k]
         == Xor(data[k], KeystreamBlock(schedule, nonce, lba, k / 16)[k % 16])
  {
    hide KeystreamBlock, Xor;
    assert CipherSector(schedule, nonce, lba, data)[k] == XorByte(data[k], Keystream(schedule, nonce, lba)[k]);
  }

  /** Two counter blocks are equal exactly when nonce, sector and block are. */
  lemma CounterTail(nonce: seq<byte>, lba: nat, block: nat)
    requires |nonce| == NONCE
    ensures CounterBlock(nonce, lba, block)[..NONCE] == nonce
    ensures CounterBlock(nonce, lba, block)[NONCE..] == BigEndian(lba * BLOCKS_PER_SECTOR + block, 8)
  {
    hide BigEndian;
  }

  lemma CountersDistinct(nonce: seq<byte>, lba: u32, block: nat, nonce': seq<byte>, lba': u32, block': nat)
    requires |nonce| == |nonce'| == NONCE && block < BLOCKS_PER_SECTOR && block' < BLOCKS_PER_SECTOR
    ensures CounterBlock(nonce, lba, block) == CounterBlock(nonce', lba', block')
       <==> nonce == nonce' && lba == lba' && block == block'
  {
    if CounterBlock(nonce, lba, block) == CounterBlock(nonce', lba', block') {
      CounterTail(nonce, lba, block);
      CounterTail(nonce', lba', block');
      hide CounterBlock, BigEndian;
      SamePlace(lba, block, lba', block');
    }
  }

  lemma SamePlace(lba: u32, block: nat, lba': u32, block': nat)
    requires block < BLOCKS_PER_SECTOR && block' < BLOCKS_PER_SECTOR
    requires BigEndian(lba as int * BLOCKS_PER_SECTOR + block, 8)
          == BigEndian(lba' as int * BLOCKS_PER_SECTOR + block', 8)
    ensures lba == lba' && block == block'
  {
    hide BigEndian, FromBigEndian, Pow256;
    var c, c' := lba as int * BLOCKS_PER_SECTOR + block, lba' as int * BLOCKS_PER_SECTOR + block';
    BigEndianRoundTrip(c, 8);
    BigEndianRoundTrip(c', 8);
    EightBytesAreEnough();
    SmallModulo(c, Pow256(8));
    SmallModulo(c', Pow256(8));
    SameCounter(lba, block, lba', block');
  }

  lemma SameCounter(lba: nat, block: nat, lba': nat, block': nat)
    requires block < BLOCKS_PER_SECTOR && block' < BLOCKS_PER_SECTOR
    requires lba * BLOCKS_PER_SECTOR + block == lba' * BLOCKS_PER_SECTOR + block'
    ensures lba == lba' && block == block'
  {
  }

  lemma EightBytesAreEnough()
    ensures Pow256(8) > TWO32 * BLOCKS_PER_SECTOR
  {
    assert Pow256(1) == 0x100 && Pow256(2) == 0x1_0000 && Pow256(3) == 0x100_0000 && Pow256(4) == 0x1_0000_0000;
    assert Pow256(5) == 0x100_0000_0000 && Pow256(6) == 0x1_0000_0000_0000;
    assert Pow256(7) == 0x100_0000_0000_0000 && Pow256(8) == 0x1_0000_0000_0000_0000;
  }

  lemma SmallModulo(c: nat, m: nat)
    requires c < m
    ensures c % m == c
  {
  }

  /** Two 16-byte keystream blocks under one key are equal exactly when nonce, sector and block are: no two
      places on a disk share one, and no two disks with distinct nonces do. */
  lemma KeystreamDistinct(schedule: seq<byte>, nonce: seq<byte>, lba: u32, block: nat,
                          nonce': seq<byte>, lba': u32, block': nat)
    requires |schedule| == Aes256.SCHEDULE_BYTES && |nonce| == |nonce'| == NONCE
    requires block < BLOCKS_PER_SECTOR && block' < BLOCKS_PER_SECTOR
    ensures KeystreamBlock(schedule, nonce, lba, block) == KeystreamBlock(schedule, nonce', lba', block')
       <==> nonce == nonce' && lba == lba' && block == block'
  {
    CountersDistinct(nonce, lba, block, nonce', lba', block');
    if KeystreamBlock(schedule, nonce, lba, block) == KeystreamBlock(schedule, nonce', lba', block') {
      Aes256.EncryptInjective(schedule, CounterBlock(nonce, lba, block), CounterBlock(nonce', lba', block'));
    }
  }

  /** So a sector is never stored as it is: some byte of its keystream is not zero. */
  lemma KeystreamNotZero(schedule: seq<byte>, nonce: seq<byte>, lba: u32)
    requires |schedule| == Aes256.SCHEDULE_BYTES && |nonce| == NONCE
    ensures exists i :: 0 <= i < SECTOR && Keystream(schedule, nonce, lba)[i] != 0
  {
    hide KeystreamBlock, Keystream, Aes256.Encrypt;
    KeystreamDistinct(schedule, nonce, lba, 0, nonce, lba, 1);
    var a, b := KeystreamBlock(schedule, nonce, lba, 0), KeystreamBlock(schedule, nonce, lba, 1);
    if a == Zeros(16) {
      var i := NonzeroAt(b);
      KeystreamAt(schedule, nonce, lba, 1, i);
    } else {
      var i := NonzeroAt(a);
      KeystreamAt(schedule, nonce, lba, 0, i);
    }
  }

  lemma KeystreamAt(schedule: seq<byte>, nonce: seq<byte>, lba: nat, block: nat, i: nat)
    requires |schedule| == Aes256.SCHEDULE_BYTES && |nonce| == NONCE && block < BLOCKS_PER_SECTOR && i < 16
    ensures Keystream(schedule, nonce, lba)[16 * block + i] == KeystreamBlock(schedule, nonce, lba, block)[i]
  {
    hide KeystreamBlock;
    assert (16 * block + i) / 16 == block && (16 * block + i) % 16 == i;
  }

  lemma NonzeroAt(a: seq<byte>) returns (i: nat)
    requires |a| == 16 && a != Zeros(16)
    ensures i < 16 && a[i] != 0
  {
    i :| 0 <= i < 16 && a[i] != Zeros(16)[i];
  }

  lemma CipherSectorDiffers(schedule: seq<byte>, nonce: seq<byte>, lba: u32, data: Sector)
    requires |schedule| == Aes256.SCHEDULE_BYTES && |nonce| == NONCE
    ensures CipherSector(schedule, nonce, lba, data) != data
  {
    KeystreamNotZero(schedule, nonce, lba);
    var k := Keystream(schedule, nonce, lba);
    var i :| 0 <= i < SECTOR && k[i] != 0;
    hide Keystream;
    XorCancels(data[i], k[i]);
    XorSelf(data[i]);
    assert XorBytes(data, k)[i] == XorByte(data[i], k[i]);
  }

  // ----- the loop over a sector -----

  /** The two buffers may be the same one. */
  method XorSectorInto(roundKeys: array<byte>, nonce: seq<byte>, lba: u32, input: array<byte>, output: array<byte>)
    requires roundKeys.Length == Aes256.SCHEDULE_BYTES && |nonce| == NONCE
    requires input.Length == output.Length == SECTOR && output != roundKeys && input != roundKeys
    modifies output
    ensures output[..] == CipherSector(old(roundKeys[..]), nonce, lba, old(input[..]))
  {
    hide KeystreamBlock;
    ghost var schedule, data := roundKeys[..], input[..];
    for block := 0 to BLOCKS_PER_SECTOR
      invariant roundKeys[..] == schedule
      invariant forall i :: 16 * block <= i < SECTOR ==> input[i] == data[i]
      invariant forall i :: 0 <= i < 16 * block ==>
        output[i] == XorByte(data[i], KeystreamBlock(schedule, nonce, lba, i / 16)[i % 16])
    {
      XorOneBlock(roundKeys, nonce, lba, block, input, output);
    }
  }

  /** One pass of the loop body. */
  method XorOneBlock(roundKeys: array<byte>, nonce: seq<byte>, lba: u32, block: nat, input: array<byte>,
                     output: array<byte>)
    requires roundKeys.Length == Aes256.SCHEDULE_BYTES && |nonce| == NONCE && block < BLOCKS_PER_SECTOR
    requires input.Length == output.Length == SECTOR && output != roundKeys && input != roundKeys
    modifies output
    ensures forall i :: 0 <= i < SECTOR && !(16 * block <= i < 16 * block + 16) ==> output[i] == old(output[i])
    ensures forall i :: 16 * block <= i < 16 * block + 16 ==>
      output[i] == XorByte(old(input[i]), KeystreamBlock(roundKeys[..], nonce, lba, block)[i - 16 * block])
  {
    hide KeystreamBlock, CounterBlock, Aes256.Encrypt, XorByte;
    var keystream := MakeKeystream(roundKeys, nonce, lba, block);
    XorInto(keystream[..], keystream, 16 * block, input, output);
  }

  method MakeKeystream(roundKeys: array<byte>, nonce: seq<byte>, lba: u32, block: nat) returns (keystream: array<byte>)
    requires roundKeys.Length == Aes256.SCHEDULE_BYTES && |nonce| == NONCE && block < BLOCKS_PER_SECTOR
    ensures fresh(keystream) && keystream.Length == 16
    ensures keystream[..] == KeystreamBlock(roundKeys[..], nonce, lba, block)
  {
    hide CounterBlock, Aes256.Encrypt;
    var counterBlock := MakeCounterBlock(nonce, lba, block);
    keystream := new byte[16];
    Aes256.EncryptBlock(roundKeys, counterBlock, keystream);
  }

  method XorInto(ghost k: seq<byte>, keystream: array<byte>, at: nat, input: array<byte>, output: array<byte>)
    requires keystream.Length == 16 && keystream[..] == k && at + 16 <= SECTOR
    requires input.Length == output.Length == SECTOR && output != keystream && input != keystream
    modifies output
    ensures forall i :: 0 <= i < SECTOR && !(at <= i < at + 16) ==> output[i] == old(output[i])
    ensures forall i :: at <= i < at + 16 ==> output[i] == XorByte(old(input[i]), k[i - at])
  {
    for i := 0 to 16
      invariant keystream[..] == k
      invariant forall j :: 0 <= j < SECTOR && !(at <= j < at + i) ==> output[j] == old(output[j])
      invariant input != output ==> forall j :: 0 <= j < SECTOR ==> input[j] == old(input[j])
      invariant forall j :: at <= j < at + i ==> output[j] == XorByte(old(input[j]), k[j - at])
    {
      output[at + i] := XorByte(input[at + i], keystream[i]);
    }
  }

  method MakeCounterBlock(nonce: seq<byte>, lba: u32, block: nat) returns (c: array<byte>)
    requires |nonce| == NONCE && block < BLOCKS_PER_SECTOR
    ensures fresh(c) && c.Length == Aes256.BLOCK && c[..] == CounterBlock(nonce, lba, block)
  {
    c := new byte[Aes256.BLOCK];
    var counter: int := lba as int * BLOCKS_PER_SECTOR + block;
    for i := 0 to 8
      invariant forall j :: 0 <= j < i ==> c[j] == nonce[j]
    {
      c[i] := nonce[i];
    }
    hide BigEndian, Pow256;
    for i := 0 to 8
      invariant forall j :: 0 <= j < 8 ==> c[j] == nonce[j]
      invariant forall j :: 0 <= j < i ==> c[8 + j] == BigEndian(counter, 8)[j]
    {
      DigitAt(counter, i);
      c[8 + i] := (counter / Pow256(7 - i)) % 256;
    }
  }

  lemma DigitAt(v: nat, i: nat)
    requires i < 8
    ensures BigEndian(v, 8)[i] == (v / Pow256(7 - i)) % 256
  {
    BigEndianAt(v, 8, i);
  }
}
