/** What is put on the wire, byte by byte, and where it is sent. */
module NetWire {
  import opened Bytes
  import opened Checksum
  import opened NetPackets
  import opened NetHost

  // ----- fields, high byte first -----

  predicate Big16(s: seq<byte>, k: nat, v: u16) {
    k + 2 <= |s| && s[k] == v / 0x100 && s[k + 1] == v % 0x100
  }

  predicate Big32(s: seq<byte>, k: nat, v: u32) {
    && k + 4 <= |s|
    && s[k] == v / 0x100_0000 && s[k + 1] == (v / 0x1_0000) % 0x100
    && s[k + 2] == (v / 0x100) % 0x100 && s[k + 3] == v % 0x100
  }

  lemma WordIsBig(v: u32)
    ensures Big32(Word32(v), 0, v)
  {
  }

  lemma GetIsBig(s: seq<byte>, k: nat, v: u32)
    requires k + 4 <= |s|
    ensures Get32(s, k) == v <==> Big32(s, k, v)
  {
    FourDigits(s[k], s[k + 1], s[k + 2], s[k + 3], v);
  }

  /** The digits of a number to the base 256. */
  lemma FourDigits(a: nat, b: nat, c: nat, d: nat, v: nat)
    requires a < 0x100 && b < 0x100 && c < 0x100 && d < 0x100
    ensures 0x1_0000 * (0x100 * a + b) + (0x100 * c + d) == v
       <==> a == v / 0x100_0000 && b == (v / 0x1_0000) % 0x100 && c == (v / 0x100) % 0x100 && d == v % 0x100
  {
    var w := 0x1_0000 * (0x100 * a + b) + (0x100 * c + d);
    ModUnique(w, 0x100_0000, a, 0x1_0000 * b + 0x100 * c + d);
    ModUnique(w, 0x1_0000, 0x100 * a + b, 0x100 * c + d);
    ModUnique(w, 0x100, 0x1_0000 * a + 0x100 * b + c, d);
    ModUnique(0x100 * a + b, 0x100, a, b);
    ModUnique(0x1_0000 * a + 0x100 * b + c, 0x100, 0x100 * a + b, c);
    Rebuilt(v);
  }

  lemma Rebuilt(v: nat)
    ensures v == 0x1_0000 * (0x100 * (v / 0x100_0000) + (v / 0x1_0000) % 0x100)
                 + (0x100 * ((v / 0x100) % 0x100) + v % 0x100)
  {
    var p, q := v / 0x100, v / 0x1_0000;
    assert q == p / 0x100 && v / 0x100_0000 == q / 0x100;
    assert v == 0x100 * p + v % 0x100 && p == 0x100 * q + p % 0x100 && q == 0x100 * (q / 0x100) + q % 0x100;
  }

  lemma Get16IsBig(s: seq<byte>, k: nat, v: u16)
    requires k + 2 <= |s|
    ensures Get16(s, k) == v <==> Big16(s, k, v)
  {
  }

  // ----- Ethernet -----

  /** A frame with these addresses, type and payload, filled with zeros up to 60 bytes. */
  predicate EthFrame(f: seq<byte>, dest: Mac, src: Mac, ethertype: u16, payload: seq<byte>) {
    && |f| == (if |payload| < 46 then 60 else 14 + |payload|)
    && f[..6] == dest && f[6..12] == src && Big16(f, 12, ethertype) && f[14..14 + |payload|] == payload
    && forall i :: 14 + |payload| <= i < |f| ==> f[i] == 0
  }

  lemma FrameIsEthernet(dest: Mac, src: Mac, ethertype: u16, payload: seq<byte>)
    ensures EthFrame(Frame(dest, src, ethertype, payload), dest, src, ethertype, payload)
  {
    FrameParts(dest, src, ethertype, payload);
    var f := Frame(dest, src, ethertype, payload);
    assert f[14..14 + |payload|] == f[14..][..|payload|];
    Get16IsBig(f, 12, ethertype);
  }

  // ----- ARP -----

  predicate ArpPacket(p: seq<byte>, op: u16, senderMac: Mac, senderIp: u32, targetMac: Mac, targetIp: u32) {
    && |p| == 28 && Big16(p, 0, 1) && Big16(p, 2, 0x0800) && p[4] == 6 && p[5] == 4 && Big16(p, 6, op)
    && p[8..14] == senderMac && Big32(p, 14, senderIp) && p[18..24] == targetMac && Big32(p, 24, targetIp)
  }

  lemma ArpIsArp(op: u16, senderMac: Mac, senderIp: u32, targetMac: Mac, targetIp: u32)
    ensures ArpPacket(Arp(op, senderMac, senderIp, targetMac, targetIp), op, senderMac, senderIp, targetMac, targetIp)
  {
    hide Word32;
    WordIsBig(senderIp);
    WordIsBig(targetIp);
  }

  // ----- IPv4 -----

  predicate IpHead(p: seq<byte>, length: u16, identification: u16, protocol: byte, source: u32, dest: u32) {
    && |p| >= 20 && p[0] == 0x45 && p[1] == 0 && Big16(p, 2, length) && Big16(p, 4, identification)
    && p[6] == 0 && p[7] == 0 && p[8] == 64 && p[9] == protocol
    && Big32(p, 12, source) && Big32(p, 16, dest) && Internet(p[..20]) == 0
  }

  lemma HeaderIsIp(length: u16, identification: u16, protocol: byte, source: u32, dest: u32)
    ensures IpHead(IpHeader(length, identification, protocol, source, dest), length, identification, protocol, source,
                   dest)
  {
    IpHeaderParts(length, identification, protocol, source, dest);
    var h := IpHeader(length, identification, protocol, source, dest);
    assert h[..20] == h;
    HeaderBytes(length, identification, protocol, source, dest);
    hide Internet, IpHeader, Get32;
    GetIsBig(h, 12, source);
    GetIsBig(h, 16, dest);
  }

  lemma HeaderBytes(length: u16, identification: u16, protocol: byte, source: u32, dest: u32)
    ensures var h := IpHeader(length, identification, protocol, source, dest);
      && h[0] == 0x45 && h[1] == 0 && Big16(h, 2, length) && Big16(h, 4, identification)
      && h[6] == 0 && h[7] == 0 && h[8] == 64 && h[9] == protocol
  {
    hide Internet, Word32;
  }

  // ----- UDP and ICMP -----

  /** The pseudo header of RFC 768. */
  predicate PseudoHeader(q: seq<byte>, source: u32, dest: u32, length: u16) {
    |q| == 12 && Big32(q, 0, source) && Big32(q, 4, dest) && q[8] == 0 && q[9] == 17 && Big16(q, 10, length)
  }

  lemma PseudoIsPseudo(source: u32, dest: u32, length: u16)
    ensures PseudoHeader(Pseudo(source, dest, length), source, dest, length)
  {
    hide Word32;
    WordIsBig(source);
    WordIsBig(dest);
  }

  lemma PseudoUnique(q: seq<byte>, source: u32, dest: u32, length: u16)
    requires PseudoHeader(q, source, dest, length)
    ensures q == Pseudo(source, dest, length)
  {
    PseudoIsPseudo(source, dest, length);
    hide Pseudo;
  }

  /** A datagram whose checksum is there and makes the sum over pseudo header and datagram come out. */
  predicate UdpDatagram(p: seq<byte>, source: u32, dest: u32, sourcePort: u16, destPort: u16, data: seq<byte>) {
    && |p| == 8 + |data| && |data| <= 1024
    && Big16(p, 0, sourcePort) && Big16(p, 2, destPort) && Big16(p, 4, |p|) && p[8..] == data
    && !(p[6] == 0 && p[7] == 0) && Internet(Pseudo(source, dest, |p|) + p) == 0
  }

  /** RFC 768: a checksum that is not zero is the right one exactly when the sum with it comes out. */
  lemma ChecksumIsSum(source: u32, dest: u32, p: seq<byte>)
    requires 8 <= |p| < 0x1_0000 && Get16(p, 6) != 0
    ensures UdpChecksum(source, dest, Put16(p, 6, 0)) == Get16(p, 6)
       <==> Internet(Pseudo(source, dest, |p|) + p) == 0
  {
    hide WordSum, Fold;
    var q := Pseudo(source, dest, |p|);
    var stored := Get16(p, 6);
    PutBehind(q, p, 0);
    SumOfPut(q + p, 18, 0);
    PseudoNotZero(source, dest, |p|, Put16(p, 6, 0));
    var x := WordSum(q + Put16(p, 6, 0));
    FoldIs(x);
    PassesWhen(x + stored as int);
    OnlyOneCompletes(x, stored);
  }

  lemma PutBehind(q: seq<byte>, p: seq<byte>, v: u16)
    requires |q| == 12 && |p| >= 8
    ensures Put16(q + p, 18, v) == q + Put16(p, 6, v) && Get16(q + p, 18) == Get16(p, 6)
  {
  }

  /** The protocol number alone makes the sum positive. */
  lemma PseudoNotZero(source: u32, dest: u32, length: u16, p: seq<byte>)
    ensures WordSum(Pseudo(source, dest, length) + p) > 0
  {
    var q := Pseudo(source, dest, length);
    PseudoIsPseudo(source, dest, length);
    hide Pseudo;
    assert q + p == q[..8] + q[8..10] + (q[10..] + p);
    SumAround(q[..8], q[8..10], q[10..] + p);
    hide WordSum;
  }

  lemma OnlyOneCompletes(x: nat, stored: nat)
    requires x > 0 && 0 < stored <= ONES
    ensures (x + stored) % ONES == 0
       <==> stored == (if ONES - ((x - 1) % ONES + 1) == 0 then ONES else ONES - ((x - 1) % ONES + 1))
  {
    var q, r := (x - 1) / ONES, (x - 1) % ONES;
    assert x + stored == ONES * q + (r + 1 + stored);
    ModOfSum(q, r + 1 + stored);
  }

  lemma PacketIsUdp(source: u32, dest: u32, sourcePort: u16, destPort: u16, data: seq<byte>)
    requires |data| <= UDP_MAX_PAYLOAD
    ensures UdpDatagram(UdpPacket(source, dest, sourcePort, destPort, data), source, dest, sourcePort, destPort, data)
  {
    var p := UdpPacket(source, dest, sourcePort, destPort, data);
    UdpParts(source, dest, sourcePort, destPort, data);
    hide UdpPacket, UdpChecksum, Internet, Pseudo;
    ChecksumIsSum(source, dest, p);
    Get16IsBig(p, 0, sourcePort);
    Get16IsBig(p, 2, destPort);
    Get16IsBig(p, 4, |p|);
  }

  predicate EchoPacket(p: seq<byte>, type_: byte, identifier: u16, sequence: u16) {
    |p| == 8 && p[0] == type_ && p[1] == 0 && Big16(p, 4, identifier) && Big16(p, 6, sequence) && Internet(p) == 0
  }

  lemma EchoIsEcho(type_: byte, identifier: u16, sequence: u16)
    ensures EchoPacket(Echo(type_, identifier, sequence), type_, identifier, sequence)
  {
    EchoParts(type_, identifier, sequence);
    hide Internet, Echo;
  }

  // ----- the route -----

  /** Two addresses agree at every set bit of the mask. */
  predicate BitsAgree(mask: u32, a: u32, b: u32) {
    forall i :: 0 <= i < 32 && Bit(mask, i) ==> Bit(a, i) == Bit(b, i)
  }

  lemma {:induction false} AndBounded(a: nat, b: nat, n: nat)
    requires a < Pow2(n)
    ensures And(a, b) < Pow2(n)
    decreases a + b
  {
    if a > 0 && n > 0 {
      AndBounded(a / 2, b / 2, n - 1);
    } else {
      AndZero(b);
    }
  }

  lemma {:induction false} AndZero(b: nat)
    ensures And(0, b) == 0 == And(b, 0)
  {
    if b > 0 {
      AndZero(b / 2);
    }
  }

  /** A mask of zero has no set bit, so that the special case of the code is no special case. */
  lemma SubnetBits(c: Config, dest: u32)
    ensures SameSubnet(c, dest) <==> BitsAgree(c.mask, dest, c.ip)
  {
    WordSize();
    AndBounded(dest, c.mask, 32);
    AndBounded(c.ip, c.mask, 32);
    hide And, Bit, Pow2;
    forall i | 0 <= i < 32
      ensures Bit(And(dest, c.mask), i) == (Bit(dest, i) && Bit(c.mask, i))
      ensures Bit(And(c.ip, c.mask), i) == (Bit(c.ip, i) && Bit(c.mask, i))
      ensures c.mask == 0 ==> !Bit(c.mask, i)
    {
      AndBits(dest, c.mask, i);
      AndBits(c.ip, c.mask, i);
      ZeroHasNoBits(i);
    }
    if BitsAgree(c.mask, dest, c.ip) {
      SameBits(And(dest, c.mask), And(c.ip, c.mask), 32);
    }
  }

  // ----- one packet out -----

  /** f is the one frame that r has sent and h has not; nothing else differs. */
  predicate Sent(h: Host, r: Host, f: seq<byte>) { r == Sending(h, f) }

  /** An ARP request for the address, to everyone. */
  predicate Asks(h: Host, f: seq<byte>, target: u32) {
    && |f| == 60 && EthFrame(f, [0xFF, 0xFF, 0xFF, 0xFF, 0xFF, 0xFF], h.config.mac, 0x0806, f[14..42])
    && ArpPacket(f[14..42], 1, h.config.mac, h.config.ip, [0, 0, 0, 0, 0, 0], target)
  }

  lemma RequestAsks(h: Host, target: u32)
    ensures Sent(h, ArpRequest(h, target), Asking(h, target)) && Asks(h, Asking(h, target), target)
  {
    var p := Arp(ARP_REQUEST, h.config.mac, h.config.ip, Zeros(6), target);
    ArpIsArp(ARP_REQUEST, h.config.mac, h.config.ip, Zeros(6), target);
    FrameIsEthernet(Broadcast, h.config.mac, ETHERTYPE_ARP, p);
    assert Broadcast == [0xFF, 0xFF, 0xFF, 0xFF, 0xFF, 0xFF] && Zeros(6) == [0, 0, 0, 0, 0, 0];
    hide Arp, Frame;
  }

  function Asking(h: Host, target: u32): seq<byte> {
    Frame(Broadcast, h.config.mac, ETHERTYPE_ARP, Arp(ARP_REQUEST, h.config.mac, h.config.ip, Zeros(6), target))
  }

  /** The packet in a frame to one station; its header names the destination of the packet. */
  predicate Carries(h: Host, f: seq<byte>, mac: Mac, dest: u32, protocol: byte, payload: seq<byte>) {
    var n := |payload|;
    && |f| >= 34 + n && n <= 1480 && EthFrame(f, mac, h.config.mac, 0x0800, f[14..34 + n])
    && IpHead(f[14..34 + n], 20 + n, h.identification, protocol, h.config.ip, dest) && f[34..34 + n] == payload
  }

  function Carrying(h: Host, mac: Mac, dest: u32, protocol: byte, payload: seq<byte>): seq<byte>
    requires |payload| <= IP_MAX_PACKET
  {
    Frame(mac, h.config.mac, ETHERTYPE_IPV4, IpPacket(h.identification, protocol, h.config.ip, dest, payload))
  }

  lemma CarryingCarries(h: Host, mac: Mac, dest: u32, protocol: byte, payload: seq<byte>)
    requires |payload| <= IP_MAX_PACKET
    ensures Carries(h, Carrying(h, mac, dest, protocol, payload), mac, dest, protocol, payload)
  {
    var n := |payload|;
    var head := IpHeader(20 + n, h.identification, protocol, h.config.ip, dest);
    HeaderIsIp(20 + n, h.identification, protocol, h.config.ip, dest);
    hide IpHeader, Internet;
    var p := head + payload;
    FrameIsEthernet(mac, h.config.mac, ETHERTYPE_IPV4, p);
    hide Frame;
    var f := Carrying(h, mac, dest, protocol, payload);
    assert f[14..34 + n] == p;
    assert p[..20] == head[..20];
    assert f[34..34 + n] == p[20..] == payload;
  }

  /** ip_send on every input. A destination that agrees with this host's address at every set bit of the mask is
      reached directly and every other through the gateway. If the cache knows the station, the packet goes out
      in one frame to it, with the destination in its header, and the identification moves on; if not, an ARP
      request for it goes out instead. */
  lemma IpSendExactly(h: Host, dest: u32, protocol: byte, payload: seq<byte>)
    ensures var (r, ok) := IpSend(h, dest, protocol, payload);
      var hop := if BitsAgree(h.config.mask, dest, h.config.ip) then dest else h.config.gateway;
      if |payload| > 1480 then r == h && !ok
      else match Resolve(h.cache, hop)
        case Unknown => !ok && Sent(h, r, Asking(h, hop)) && Asks(h, Asking(h, hop), hop)
        case Resolved(mac) =>
          && ok && Carries(h, Carrying(h, mac, dest, protocol, payload), mac, dest, protocol, payload)
          && Sent(WithIdentification(h, (h.identification as int + 1) % 0x1_0000), r,
                  Carrying(h, mac, dest, protocol, payload))
  {
    hide Frame, IpPacket, Resolve, And, Bit, Carries, Asks, ArpRequest, BitsAgree;
    SubnetBits(h.config, dest);
    var hop := NextHop(h.config, dest);
    if |payload| <= IP_MAX_PACKET {
      match Resolve(h.cache, hop)
      case Unknown => RequestAsks(h, hop);
      case Resolved(mac) => CarryingCarries(h, mac, dest, protocol, payload);
    }
  }

  /** In particular a packet for another subnet goes to the gateway's station and names its own destination. */
  lemma ViaGateway(h: Host, dest: u32, protocol: byte, payload: seq<byte>, i: nat, mac: Mac)
    requires |payload| <= 1480 && i < 32 && Bit(h.config.mask, i) && Bit(dest, i) != Bit(h.config.ip, i)
    requires Resolve(h.cache, h.config.gateway) == Resolved(mac)
    ensures var (r, ok) := IpSend(h, dest, protocol, payload);
      && ok && |r.sent| == |h.sent| + 1 && r.sent[..|h.sent|] == h.sent
      && var f := r.sent[|h.sent|];
         |f| >= 34 + |payload| && f[..6] == mac && Big32(f, 30, dest) && f[34..34 + |payload|] == payload
  {
    IpSendExactly(h, dest, protocol, payload);
    hide IpSend, Carrying, Resolve, Bit, Internet;
    var f := IpSend(h, dest, protocol, payload).0.sent[|h.sent|];
    var p := f[14..34 + |payload|];
    assert Big32(p, 16, dest);
    assert f[30] == p[16] && f[31] == p[17] && f[32] == p[18] && f[33] == p[19];
  }

  /** A datagram of more than 1024 bytes is refused; any other is one IP packet, and so is a ping. */
  lemma UdpSendExactly(h: Host, dest: u32, destPort: u16, sourcePort: u16, data: seq<byte>)
    ensures if |data| > 1024 then UdpSend(h, dest, destPort, sourcePort, data) == (h, false)
            else var p := UdpPacket(h.config.ip, dest, sourcePort, destPort, data);
              && UdpSend(h, dest, destPort, sourcePort, data) == IpSend(h, dest, 17, p)
              && UdpDatagram(p, h.config.ip, dest, sourcePort, destPort, data)
  {
    hide IpSend, UdpPacket, UdpDatagram;
    if |data| <= 1024 {
      PacketIsUdp(h.config.ip, dest, sourcePort, destPort, data);
    }
  }

  lemma PingSendExactly(h: Host, dest: u32, identifier: u16, sequence: u16)
    ensures var p := Echo(ECHO_REQUEST, identifier, sequence);
      && PingSend(h, dest, identifier, sequence)
         == IpSend(WithPing(h, Ping(true, identifier, sequence, false)), dest, 1, p)
      && EchoPacket(p, 8, identifier, sequence)
  {
    hide IpSend, Echo;
    EchoIsEcho(ECHO_REQUEST, identifier, sequence);
  }

  /** Every frame has from 60 to 1518 bytes, and eth_send refuses exactly the payloads that would make it longer. */
  lemma EthSendExactly(h: Host, dest: Mac, ethertype: u16, payload: seq<byte>)
    ensures var (r, ok) := EthSend(h, dest, ethertype, payload);
      if |payload| > 1504 then r == h && !ok
      else && ok && Sent(h, r, Frame(dest, h.config.mac, ethertype, payload))
           && 60 <= |Frame(dest, h.config.mac, ethertype, payload)| <= 1518
           && EthFrame(Frame(dest, h.config.mac, ethertype, payload), dest, h.config.mac, ethertype, payload)
  {
    hide Frame;
    FrameIsEthernet(dest, h.config.mac, ethertype, payload);
  }
}
