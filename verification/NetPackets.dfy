/** The frames and packets that the network code builds: Ethernet (src/kernel/ethernet.c),
    ARP (RFC 826), IPv4 (section 3.1 of RFC 791), UDP (RFC 768) and ICMP echo (RFC 792). */
module NetPackets {
  import opened Bytes
  import opened Checksum

  const ETH_HEADER_LEN := 14
  const ETH_MIN := 60
  const ETH_MAX_FRAME := 1518
  const ETHERTYPE_IPV4: u16 := 0x0800
  const ETHERTYPE_ARP: u16 := 0x0806
  const ARP_LEN := 28
  const ARP_REQUEST: u16 := 1
  const ARP_REPLY: u16 := 2
  const IP_HEADER_LEN := 20
  const IP_MAX_PACKET := 1480
  const IP_ICMP: byte := 1
  const IP_UDP: byte := 17
  const UDP_HEADER_LEN := 8
  const UDP_MAX_PAYLOAD := 1024
  const ICMP_LEN := 8
  const ICMP_REPLY_MAX := 576
  const ECHO_REQUEST: byte := 8
  const ECHO_REPLY: byte := 0

  type Mac = m: seq<byte> | |m| == 6 witness Zeros(6)

  const Broadcast: Mac := Repeat(0xFF, 6)

  // ----- 32-bit words -----

  function High(v: u32): u16 { v / 0x1_0000 }
  function Low(v: u32): u16 { v % 0x1_0000 }

  function Word32(v: u32): (w: seq<byte>)
    ensures |w| == 4
  {
    Word16(High(v)) + Word16(Low(v))
  }

  function Get32(s: seq<byte>, k: nat): u32
    requires k + 4 <= |s|
  {
    0x1_0000 * (Get16(s, k) as int) + Get16(s, k + 2) as int
  }

  lemma Get16At(a: seq<byte>, v: u16, b: seq<byte>)
    ensures Get16(a + Word16(v) + b, |a|) == v
  {
  }

  lemma Get32At(a: seq<byte>, v: u32, b: seq<byte>)
    ensures Get32(a + Word32(v) + b, |a|) == v
  {
    var s := a + Word32(v) + b;
    assert s == a + Word16(High(v)) + (Word16(Low(v)) + b);
    Get16At(a, High(v), Word16(Low(v)) + b);
    assert s == (a + Word16(High(v))) + Word16(Low(v)) + b;
    Get16At(a + Word16(High(v)), Low(v), b);
    hide Get16, Word16;
    Halves(v);
  }

  lemma Halves(v: u32)
    ensures 0x1_0000 * (High(v) as int) + Low(v) as int == v
  {
  }

  // ----- Ethernet -----

  function Padded(f: seq<byte>): (r: seq<byte>)
    ensures |r| >= ETH_MIN && |r| >= |f| && r[..|f|] == f
  {
    if |f| < ETH_MIN then f + Zeros(ETH_MIN - |f|) else f
  }

  function Frame(dest: Mac, src: Mac, ethertype: u16, payload: seq<byte>): (f: seq<byte>)
    ensures |f| >= ETH_MIN && |f| >= ETH_HEADER_LEN + |payload|
  {
    Padded(dest + src + Word16(ethertype) + payload)
  }

  /** Whatever the padding, the payload is there again, at the front. */
  lemma FrameParts(dest: Mac, src: Mac, ethertype: u16, payload: seq<byte>)
    ensures var f := Frame(dest, src, ethertype, payload);
      && f[..6] == dest && f[6..12] == src && Get16(f, 12) == ethertype
      && f[ETH_HEADER_LEN..][..|payload|] == payload
  {
    var g := dest + src + Word16(ethertype) + payload;
    var f := Frame(dest, src, ethertype, payload);
    assert f[..|g|] == g;
    assert f[..6] == g[..6] == dest;
    assert f[6..12] == g[6..12] == src;
    Get16At(dest + src, ethertype, payload);
    assert f[12] == g[12] && f[13] == g[13];
    assert f[ETH_HEADER_LEN..][..|payload|] == g[ETH_HEADER_LEN..] == payload;
  }

  // ----- ARP -----

  function Arp(op: u16, senderMac: Mac, senderIp: u32, targetMac: Mac, targetIp: u32): (p: seq<byte>)
    ensures |p| == ARP_LEN
  {
    Word16(1) + Word16(0x0800) + [6, 4] + Word16(op) + senderMac + Word32(senderIp) + targetMac + Word32(targetIp)
  }

  lemma ArpParts(op: u16, senderMac: Mac, senderIp: u32, targetMac: Mac, targetIp: u32)
    ensures var p := Arp(op, senderMac, senderIp, targetMac, targetIp);
      && Get16(p, 0) == 1 && Get16(p, 2) == 0x0800 && Get16(p, 6) == op && p[8..14] == senderMac
      && Get32(p, 14) == senderIp && Get32(p, 24) == targetIp
  {
    var p := Arp(op, senderMac, senderIp, targetMac, targetIp);
    hide Word32, Get32;
    var h := Word16(1) + Word16(0x0800) + [6, 4];
    Get16At(h, op, senderMac + Word32(senderIp) + targetMac + Word32(targetIp));
    assert p == h + Word16(op) + (senderMac + Word32(senderIp) + targetMac + Word32(targetIp));
    Get32At(h + Word16(op) + senderMac, senderIp, targetMac + Word32(targetIp));
    assert p == (h + Word16(op) + senderMac) + Word32(senderIp) + (targetMac + Word32(targetIp));
    Get32At(h + Word16(op) + senderMac + Word32(senderIp) + targetMac, targetIp, []);
    assert p == (h + Word16(op) + senderMac + Word32(senderIp) + targetMac) + Word32(targetIp) + [];
  }

  // ----- IPv4 -----

  /** The header with its checksum field zero. */
  function IpHeader0(total: u16, identification: u16, protocol: byte, source: u32, dest: u32): (h: seq<byte>)
    ensures |h| == IP_HEADER_LEN
  {
    [0x45, 0] + Word16(total) + Word16(identification) + [0, 0, 64, protocol, 0, 0] + Word32(source) + Word32(dest)
  }

  function IpHeader(total: u16, identification: u16, protocol: byte, source: u32, dest: u32): (h: seq<byte>)
    ensures |h| == IP_HEADER_LEN
  {
    var h := IpHeader0(total, identification, protocol, source, dest);
    Put16(h, 10, Internet(h))
  }

  function IpPacket(identification: u16, protocol: byte, source: u32, dest: u32, payload: seq<byte>): (p: seq<byte>)
    requires |payload| <= IP_MAX_PACKET
    ensures |p| == IP_HEADER_LEN + |payload|
  {
    IpHeader(IP_HEADER_LEN + |payload|, identification, protocol, source, dest) + payload
  }

  lemma IpHeaderParts(total: u16, identification: u16, protocol: byte, source: u32, dest: u32)
    ensures var h := IpHeader(total, identification, protocol, source, dest);
      && h[0] == 0x45 && Get16(h, 2) == total && Get16(h, 6) == 0 && h[9] == protocol
      && Get32(h, 12) == source && Get32(h, 16) == dest && Internet(h) == 0
  {
    hide Internet, Word32, Get32;
    var h0 := IpHeader0(total, identification, protocol, source, dest);
    var h := IpHeader(total, identification, protocol, source, dest);
    Get16At([0x45, 0], total, Word16(identification) + [0, 0, 64, protocol, 0, 0] + Word32(source) + Word32(dest));
    assert h0 == [0x45, 0] + Word16(total)
                 + (Word16(identification) + [0, 0, 64, protocol, 0, 0] + Word32(source) + Word32(dest));
    assert Get16(h0, 10) == 0;
    StoredChecksumPasses(h0, 10);
    AddressesAt(total, identification, protocol, source, dest);
    AfterPut(h0, 10, Internet(h0));
  }

  lemma AddressesAt(total: u16, identification: u16, protocol: byte, source: u32, dest: u32)
    ensures var h0 := IpHeader0(total, identification, protocol, source, dest);
      Get32(h0, 12) == source && Get32(h0, 16) == dest
  {
    hide Get32, Word32;
    var a := [0x45, 0] + Word16(total) + Word16(identification) + [0, 0, 64, protocol, 0, 0];
    assert IpHeader0(total, identification, protocol, source, dest) == a + Word32(source) + Word32(dest);
    Get32At(a, source, Word32(dest));
    assert a + Word32(source) + Word32(dest) == (a + Word32(source)) + Word32(dest) + [];
    Get32At(a + Word32(source), dest, []);
  }

  lemma AfterPut(h: seq<byte>, k: nat, v: u16)
    requires k + 2 <= |h|
    ensures var r := Put16(h, k, v);
      && (forall i :: 0 <= i < |h| && !(k <= i < k + 2) ==> r[i] == h[i])
      && (forall i :: k + 2 <= i && i + 4 <= |h| ==> Get32(r, i) == Get32(h, i))
      && (forall i :: 0 <= i && i + 2 <= |h| && (i + 2 <= k || k + 2 <= i) ==> Get16(r, i) == Get16(h, i))
      && Get16(r, k) == v
  {
  }

  // ----- UDP -----

  function Pseudo(source: u32, dest: u32, length: u16): (p: seq<byte>)
    ensures |p| == 12
  {
    Word32(source) + Word32(dest) + [0, IP_UDP] + Word16(length)
  }

  /** A checksum of zero is sent as all ones: zero means that none was computed. */
  function UdpChecksum(source: u32, dest: u32, packet: seq<byte>): (c: u16)
    requires |packet| < 0x1_0000
    ensures c != 0
  {
    var c := Internet(Pseudo(source, dest, |packet|) + packet);
    if c == 0 then 0xFFFF else c
  }

  function Udp0(sourcePort: u16, destPort: u16, data: seq<byte>): (p: seq<byte>)
    requires |data| <= UDP_MAX_PAYLOAD
    ensures |p| == UDP_HEADER_LEN + |data|
  {
    Word16(sourcePort) + Word16(destPort) + Word16(UDP_HEADER_LEN + |data|) + [0, 0] + data
  }

  function UdpPacket(source: u32, dest: u32, sourcePort: u16, destPort: u16, data: seq<byte>): (p: seq<byte>)
    requires |data| <= UDP_MAX_PAYLOAD
    ensures |p| == UDP_HEADER_LEN + |data|
  {
    var p := Udp0(sourcePort, destPort, data);
    Put16(p, 6, UdpChecksum(source, dest, p))
  }

  lemma UdpParts(source: u32, dest: u32, sourcePort: u16, destPort: u16, data: seq<byte>)
    requires |data| <= UDP_MAX_PAYLOAD
    ensures var p := UdpPacket(source, dest, sourcePort, destPort, data);
      && Get16(p, 0) == sourcePort && Get16(p, 2) == destPort && Get16(p, 4) == |p| && p[UDP_HEADER_LEN..] == data
      && Get16(p, 6) == UdpChecksum(source, dest, Put16(p, 6, 0)) && Get16(p, 6) != 0
  {
    hide UdpChecksum;
    var p0 := Udp0(sourcePort, destPort, data);
    var p := UdpPacket(source, dest, sourcePort, destPort, data);
    AfterPut(p0, 6, UdpChecksum(source, dest, p0));
    assert Put16(p, 6, 0) == p0;
  }

  // ----- ICMP echo -----

  function Echo0(type_: byte, identifier: u16, sequence: u16): (p: seq<byte>)
    ensures |p| == ICMP_LEN
  {
    [type_, 0, 0, 0] + Word16(identifier) + Word16(sequence)
  }

  function Echo(type_: byte, identifier: u16, sequence: u16): (p: seq<byte>)
    ensures |p| == ICMP_LEN
  {
    Put16(Echo0(type_, identifier, sequence), 2, Internet(Echo0(type_, identifier, sequence)))
  }

  lemma EchoParts(type_: byte, identifier: u16, sequence: u16)
    ensures var p := Echo(type_, identifier, sequence);
      p[0] == type_ && p[1] == 0 && Get16(p, 4) == identifier && Get16(p, 6) == sequence && Internet(p) == 0
  {
    hide Internet;
    var p0 := Echo0(type_, identifier, sequence);
    StoredChecksumPasses(p0, 2);
    AfterPut(p0, 2, Internet(p0));
  }
}
