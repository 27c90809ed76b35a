/** The ATA disk as a store of sectors, and the device that the file system reads and
    writes through: the disk itself, or a slot of crypto_disk.c in front of it. */
module Device {
  import opened Bytes
  import opened FsFormat
  import opened CryptoDisk
  import Aes256

  /** A disk whose sector I/O may fail at any call, unless it is reliable. A sector that
      could not be written holds either what it held or the new bytes. The sectors that could
      not be read are listed in `refused`, a read each. */
  class Drive {
    const reliable: bool
    var sectors: seq<Sector>
    ghost var refused: seq<u32>

    constructor (sectors: seq<Sector>, reliable: bool)
      ensures this.sectors == sectors && this.reliable == reliable
    {
      this.sectors := sectors;
      this.reliable := reliable;
      refused := [];
    }

    method Read(l: u32) returns (ok: bool, data: Sector)
      modifies this`refused
      ensures ok ==> l < |sectors| && data == sectors[l]
      ensures reliable && l < |sectors| ==> ok
      ensures refused == if ok then old(refused) else old(refused) + [l]
    {
      ok := *;
      data := ZeroSectorBytes();
      if l >= |sectors| {
        ok := false;
      } else if ok || reliable {
        ok, data := true, sectors[l];
      }
      refused := if ok then refused else refused + [l];
    }

    method Write(l: u32, data: Sector) returns (ok: bool)
      modifies this`sectors
      ensures sectors == old(sectors) || (l < |old(sectors)| && sectors == old(sectors)[l := data])
      ensures ok ==> l < |old(sectors)| && sectors == old(sectors)[l := data]
      ensures reliable && l < |sectors| ==> ok
    {
      ok := *;
      var stored: bool := *;
      if l >= |sectors| {
        ok := false;
      } else if ok || stored || reliable {
        ok := ok || reliable;
        sectors := sectors[l := data];
      }
    }
  }

  function ZeroSectorBytes(): Sector { Zeros(SECTOR) }

  /** What a disk of enciphered sectors reads as. */
  function Deciphered(schedule: seq<byte>, nonce: seq<byte>, raw: seq<Sector>): (plain: seq<Sector>)
    requires |schedule| == Aes256.SCHEDULE_BYTES && |nonce| == NONCE
    ensures |plain| == |raw|
  {
    seq(|raw|, l requires 0 <= l < |raw| => CipherSector(schedule, nonce, l, raw[l]))
  }

  /** Storing an enciphered sector stores the sector. */
  lemma DecipheredUpdate(schedule: seq<byte>, nonce: seq<byte>, raw: seq<Sector>, l: nat, data: Sector)
    requires |schedule| == Aes256.SCHEDULE_BYTES && |nonce| == NONCE && l < |raw|
    ensures Deciphered(schedule, nonce, raw[l := CipherSector(schedule, nonce, l, data)]) ==
            Deciphered(schedule, nonce, raw)[l := data]
  {
    hide CipherSector;
    CipherSectorTwice(schedule, nonce, l, data);
  }

  /** What a device is set up with: nothing, or an AES-256 key and a nonce. */
  datatype Route = Direct | Cipher(key: seq<byte>, nonce: seq<byte>)

  predicate ValidRoute(route: Route) {
    route.Cipher? ==> |route.key| == Aes256.KEY_BYTES && |route.nonce| == NONCE
  }

  /** What the file system reads on a disk with these sectors. */
  function Plaintext(route: Route, raw: seq<Sector>): (plain: seq<Sector>)
    requires ValidRoute(route)
    ensures |plain| == |raw|
  {
    match route
    case Direct => raw
    case Cipher(key, nonce) => Deciphered(Aes256.Schedule(key), nonce, raw)
  }

  /** What is on the disk when `data` is written through the device. */
  function Stored(route: Route, l: nat, data: Sector): Sector
    requires ValidRoute(route)
  {
    match route
    case Direct => data
    case Cipher(key, nonce) => CipherSector(Aes256.Schedule(key), nonce, l, data)
  }

  lemma StoredReadsBack(route: Route, raw: seq<Sector>, l: nat, data: Sector)
    requires ValidRoute(route) && l < |raw|
    ensures Plaintext(route, raw[l := Stored(route, l, data)]) == Plaintext(route, raw)[l := data]
  {
    hide CipherSector, Deciphered, Aes256.Schedule;
    if route.Cipher? {
      DecipheredUpdate(Aes256.Schedule(route.key), route.nonce, raw, l, data);
    }
  }

  lemma StoredDiffers(route: Route, l: u32, data: Sector)
    requires ValidRoute(route)
    ensures Stored(route, l, data) == data <==> route.Direct?
  {
    hide CipherSector, Aes256.Schedule;
    if route.Cipher? {
      CipherSectorDiffers(Aes256.Schedule(route.key), route.nonce, l, data);
    }
  }

  class Device {
    const drive: Drive
    const route: Route
    const roundKeys: array<byte>

    ghost predicate Valid()
      reads roundKeys
    {
      && ValidRoute(route)
      && roundKeys.Length == Aes256.SCHEDULE_BYTES
      && (route.Cipher? ==> roundKeys[..] == Aes256.Schedule(route.key))
    }

    /** The sectors as they read through this device. */
    ghost function Plain(): (plain: seq<Sector>)
      requires ValidRoute(route)
      reads drive`sectors
      ensures |plain| == |drive.sectors|
    {
      Plaintext(route, drive.sectors)
    }

    constructor (drive: Drive, route: Route)
      requires ValidRoute(route)
      ensures Valid() && this.drive == drive && this.route == route && fresh(roundKeys)
    {
      hide Aes256.Schedule;
      this.drive := drive;
      this.route := route;
      this.roundKeys := new byte[Aes256.SCHEDULE_BYTES](_ => 0);
      new;
      if route.Cipher? {
        var key := new byte[Aes256.KEY_BYTES](i requires 0 <= i < Aes256.KEY_BYTES => route.key[i]);
        assert key[..] == route.key;
        Aes256.Init(roundKeys, key);
      }
    }

    method Read(l: u32) returns (ok: bool, data: Sector)
      requires Valid()
      modifies drive`refused
      ensures ok ==> l < |Plain()| && data == Plain()[l]
      ensures drive.reliable && l < |Plain()| ==> ok
      ensures drive.refused == if ok then old(drive.refused) else old(drive.refused) + [l]
    {
      hide CipherSector, Aes256.Schedule;
      ok, data := drive.Read(l);
      if ok && route.Cipher? {
        data := Encipher(l, data);
      }
    }

    method Write(l: u32, data: Sector) returns (ok: bool)
      requires Valid()
      modifies drive`sectors
      ensures Valid()
      ensures drive.sectors == old(drive.sectors)
              || (l < |old(drive.sectors)| && drive.sectors == old(drive.sectors)[l := Stored(route, l, data)])
      ensures Plain() == old(Plain()) || (l < |old(Plain())| && Plain() == old(Plain())[l := data])
      ensures ok ==> l < |old(Plain())| && Plain() == old(Plain())[l := data]
      ensures ok ==> l < |old(drive.sectors)| && drive.sectors == old(drive.sectors)[l := Stored(route, l, data)]
      ensures drive.reliable && l < |Plain()| ==> ok
    {
      hide CipherSector, Deciphered, Aes256.Schedule;
      var stored := data;
      if route.Cipher? {
        stored := Encipher(l, data);
      }
      if l < |drive.sectors| {
        StoredReadsBack(route, drive.sectors, l, data);
      }
      ok := drive.Write(l, stored);
    }

    /** crypto_xor_sector on fresh buffers. */
    method Encipher(l: u32, data: Sector) returns (r: Sector)
      requires Valid() && route.Cipher?
      ensures r == CipherSector(Aes256.Schedule(route.key), route.nonce, l, data)
    {
      hide CipherSector, Aes256.Schedule;
      var input := new byte[SECTOR](i requires 0 <= i < SECTOR => data[i]);
      var output := new byte[SECTOR](_ => 0);
      assert input[..] == data;
      XorSectorInto(roundKeys, route.nonce, l, input, output);
      r := output[..];
    }
  }

  // ----- crypto_disk_create_internal and crypto_disk_self_test -----

  const CRYPTO_SLOTS := 2

  /** The static slots, which are only ever taken in order and never given back. */
  class Registry {
    const drive: Drive
    var slots: seq<Device>

    ghost predicate Valid()
      reads this
    {
      |slots| <= CRYPTO_SLOTS && forall i :: 0 <= i < |slots| ==> slots[i].drive == drive && slots[i].route.Cipher?
    }

    constructor (drive: Drive)
      ensures Valid() && this.drive == drive && slots == []
    {
      this.drive := drive;
      slots := [];
    }

    /** -1, or the device of the first free slot. */
    method Create(key: seq<byte>, nonce: seq<byte>) returns (slot: int)
      requires Valid() && |key| == Aes256.KEY_BYTES && |nonce| == NONCE
      modifies this
      ensures Valid()
      ensures slot == if |old(slots)| < CRYPTO_SLOTS then |old(slots)| else -1
      ensures slot == -1 ==> slots == old(slots)
      ensures slot >= 0 ==>
              |slots| == slot + 1 && slots[..slot] == old(slots) && fresh(slots[slot]) && fresh(slots[slot].roundKeys)
                            && slots[slot].Valid() && slots[slot].route == Cipher(key, nonce)
    {
      hide Aes256.Schedule;
      if |slots| >= CRYPTO_SLOTS {
        return -1;
      }
      var device := new Device(drive, Cipher(key, nonce));
      slot := |slots|;
      slots := slots + [device];
    }
  }

  function PatternByte(i: nat): byte { (i * 37 + 11) % 256 }

  function Pattern(): (p: Sector) { seq(SECTOR, i requires 0 <= i < SECTOR => PatternByte(i)) }

  /** On a disk that does not fail the self-test passes exactly when the device enciphers,
      whatever the key, the nonce and the sector, and leaves the disk as it was. */
  method SelfTest(device: Device, scratch: u32) returns (ok: bool)
    requires device.Valid()
    modifies device.drive
    ensures device.drive.reliable ==> device.drive.sectors == old(device.drive.sectors)
    ensures device.drive.reliable && scratch < |device.drive.sectors| ==> (ok <==> device.route.Cipher?)
    ensures ok ==> device.route.Cipher?
  {
    hide CipherSector, Aes256.Schedule, PatternByte, Pattern;
    var drive := device.drive;
    var found, original := drive.Read(scratch);
    if !found {
      return false;
    }
    var pattern := Pattern();
    ghost var before := drive.sectors;
    StoredDiffers(device.route, scratch, pattern);
    ok := device.Write(scratch, pattern);
    if ok {
      var read, readback := device.Read(scratch);
      ok := read && readback == pattern;
    }
    if ok {
      var read, rawOnDisk := drive.Read(scratch);
      ok := read && rawOnDisk != pattern;
    }
    var restored := drive.Write(scratch, original);
  }
}
