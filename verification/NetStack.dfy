/** The network code over its statics and packet buffers, computing the steps of NetHost. */
module NetStack {
  import opened Bytes
  import opened Checksum
  import opened NetPackets
  import opened NetHost

  // ----- buffers -----

  /** Copies bytes to the end of what has been built so far. */
  method Append(p: array<byte>, at: nat, bytes: seq<byte>)
    requires at + |bytes| <= p.Length
    modifies p
    ensures p[..at + |bytes|] == old(p[..at]) + bytes
  {
    for i := 0 to |bytes|
      invariant p[..at] == old(p[..at])
      invariant forall j :: 0 <= j < i ==> p[at + j] == bytes[j]
    {
      p[at + i] := bytes[i];
    }
  }

  /** net_write16 */
  method Write16(p: array<byte>, at: nat, v: u16)
    requires at + 2 <= p.Length
    modifies p
    ensures p[..] == Put16(old(p[..]), at, v)
  {
    p[at] := v / 0x100;
    p[at + 1] := v % 0x100;
  }

  lemma PutInFront(s: seq<byte>, n: nat, k: nat, v: u16)
    requires k + 2 <= n <= |s|
    ensures Put16(s, k, v)[..n] == Put16(s[..n], k, v)
  {
  }

  method BuildArp(op: u16, senderMac: Mac, senderIp: u32, targetMac: Mac, targetIp: u32) returns (p: array<byte>)
    ensures fresh(p) && p[..] == Arp(op, senderMac, senderIp, targetMac, targetIp)
  {
    hide Word16, Word32;
    p := new byte[ARP_LEN];
    Append(p, 0, Word16(1));
    Append(p, 2, Word16(0x0800));
    Append(p, 4, [6, 4]);
    Append(p, 6, Word16(op));
    Append(p, 8, senderMac);
    Append(p, 14, Word32(senderIp));
    Append(p, 18, targetMac);
    Append(p, 24, Word32(targetIp));
    assert p[..] == p[..ARP_LEN];
  }

  method BuildIp(identification: u16, protocol: byte, source: u32, dest: u32, payload: seq<byte>)
      returns (packet: seq<byte>)
    requires |payload| <= IP_MAX_PACKET
    ensures packet == IpPacket(identification, protocol, source, dest, payload)
  {
    hide Word16, Word32, Internet;
    var p := new byte[IP_HEADER_LEN + IP_MAX_PACKET];
    BuildIpHeader0(p, IP_HEADER_LEN + |payload|, identification, protocol, source, dest);
    ghost var h := p[..IP_HEADER_LEN];
    NoOverflow(h);
    var checksum := InternetChecksum(p[..IP_HEADER_LEN]);
    Write16(p, 10, checksum);
    assert p[..IP_HEADER_LEN] == Put16(h, 10, checksum);
    Append(p, IP_HEADER_LEN, payload);
    packet := p[..IP_HEADER_LEN + |payload|];
  }

  method BuildIpHeader0(p: array<byte>, total: u16, identification: u16, protocol: byte, source: u32, dest: u32)
    requires p.Length >= IP_HEADER_LEN
    modifies p
    ensures p[..IP_HEADER_LEN] == IpHeader0(total, identification, protocol, source, dest)
  {
    hide Word16, Word32;
    Append(p, 0, [0x45, 0]);
    Append(p, 2, Word16(total));
    Append(p, 4, Word16(identification));
    Append(p, 6, [0, 0, 64, protocol, 0, 0]);
    Append(p, 12, Word32(source));
    Append(p, 16, Word32(dest));
  }

  method ComputeUdpChecksum(source: u32, dest: u32, packet: seq<byte>) returns (c: u16)
    requires |packet| <= UDP_HEADER_LEN + UDP_MAX_PAYLOAD
    ensures c == UdpChecksum(source, dest, packet)
  {
    hide Word16, Word32, WordSum, Finish;
    var pseudo := new byte[12];
    Append(pseudo, 0, Word32(source));
    Append(pseudo, 4, Word32(dest));
    Append(pseudo, 8, [0, IP_UDP]);
    Append(pseudo, 10, Word16(|packet|));
    ghost var head := Pseudo(source, dest, |packet|);
    assert pseudo[..] == pseudo[..12] == head;
    SumAppend(head, packet);
    NoOverflow(head + packet);
    var sum := Add(0, pseudo[..]);
    sum := Add(sum, packet);
    var result := FinishSum(sum);
    c := if result == 0 then 0xFFFF else result;
  }

  method BuildUdp(source: u32, dest: u32, sourcePort: u16, destPort: u16, data: seq<byte>) returns (packet: seq<byte>)
    requires |data| <= UDP_MAX_PAYLOAD
    ensures packet == UdpPacket(source, dest, sourcePort, destPort, data)
  {
    hide Word16, UdpChecksum;
    var length := UDP_HEADER_LEN + |data|;
    var p := new byte[UDP_HEADER_LEN + UDP_MAX_PAYLOAD];
    Append(p, 0, Word16(sourcePort));
    Append(p, 2, Word16(destPort));
    Append(p, 4, Word16(length));
    Append(p, 6, [0, 0]);
    Append(p, UDP_HEADER_LEN, data);
    ghost var p0 := p[..length];
    assert p0 == Udp0(sourcePort, destPort, data);
    var checksum := ComputeUdpChecksum(source, dest, p[..length]);
    Write16(p, 6, checksum);
    packet := p[..length];
    assert packet == Put16(p0, 6, checksum);
  }

  method BuildEcho(type_: byte, identifier: u16, sequence: u16) returns (packet: seq<byte>)
    ensures packet == Echo(type_, identifier, sequence)
  {
    hide Word16, Internet;
    var p := new byte[ICMP_LEN];
    Append(p, 0, [type_, 0, 0, 0]);
    Append(p, 4, Word16(identifier));
    Append(p, 6, Word16(sequence));
    ghost var p0 := p[..];
    assert p0 == p[..ICMP_LEN] == Echo0(type_, identifier, sequence);
    NoOverflow(p0);
    var sum := InternetChecksum(p[..]);
    Write16(p, 2, sum);
    packet := p[..];
  }

  /** The header, the payload and zeros up to the least length. */
  method BuildFrame(dest: Mac, src: Mac, ethertype: u16, payload: seq<byte>) returns (f: seq<byte>)
    requires |payload| <= ETH_MAX_FRAME - ETH_HEADER_LEN
    ensures f == Frame(dest, src, ethertype, payload)
  {
    hide Word16;
    var frame := new byte[ETH_MAX_FRAME];
    Append(frame, 0, dest);
    Append(frame, 6, src);
    Append(frame, 12, Word16(ethertype));
    Append(frame, ETH_HEADER_LEN, payload);
    ghost var g := frame[..ETH_HEADER_LEN + |payload|];
    var length := ETH_HEADER_LEN + |payload|;
    while length < ETH_MIN
      invariant |g| <= length <= ETH_MAX_FRAME && (|g| < length ==> length <= ETH_MIN)
      invariant frame[..length] == g + Zeros(length - |g|)
    {
      frame[length] := 0;
      length := length + 1;
    }
    f := frame[..length];
  }

  // ----- the statics -----

  class Stack {
    const config: Config
    const cache: array<Entry>
    const bindings: array<Binding>
    var identification: u16
    var ping: Ping
    var sent: seq<seq<byte>>
    var received: seq<Datagram>

    ghost predicate Valid() { cache.Length == CACHE && bindings.Length == BINDINGS }

    ghost function View(): (h: Host)
      requires Valid()
      reads this, cache, bindings
      ensures Sized(h)
    {
      Host(config, cache[..], bindings[..], identification, ping, sent, received)
    }

    constructor (config: Config)
      ensures Valid() && this.config == config && fresh(cache) && fresh(bindings)
      ensures View().sent == [] && View().received == [] && forall ip :: Resolve(View().cache, ip) == Unknown
    {
      this.config := config;
      cache := new Entry[CACHE](_ => Entry(0, Zeros(6), false));
      bindings := new Binding[BINDINGS](_ => Binding(0, NO_CALLBACK, false));
      identification := 1;
      ping := Ping(false, 0, 0, false);
      sent := [];
      received := [];
    }

    // ----- arp.c -----

    method CacheLearn(ip: u32, mac: Mac)
      requires Valid()
      modifies cache
      ensures View() == WithCache(old(View()), Learn(old(View()).cache, ip, mac))
    {
      ghost var c := cache[..];
      var free := -1;
      for i := 0 to CACHE
        invariant cache[..] == c && Find(c, ip, 0) == Find(c, ip, i)
        invariant -1 <= free < i && FirstFree(c, 0) == if free >= 0 then free else FirstFree(c, i)
      {
        if cache[i].inUse && cache[i].ip == ip {
          cache[i] := Entry(cache[i].ip, mac, cache[i].inUse);
          return;
        }
        if !cache[i].inUse && free < 0 {
          free := i;
        }
      }
      var slot := if free >= 0 then free else 0;
      cache[slot] := Entry(ip, mac, true);
    }

    method ArpResolve(ip: u32) returns (r: Resolution)
      requires Valid()
      ensures r == Resolve(View().cache, ip)
    {
      for i := 0 to CACHE
        invariant Find(cache[..], ip, 0) == Find(cache[..], ip, i)
      {
        if cache[i].inUse && cache[i].ip == ip {
          return Resolved(cache[i].mac);
        }
      }
      return Unknown;
    }

    method SendArpRequest(target: u32)
      requires Valid()
      modifies this`sent
      ensures View() == ArpRequest(old(View()), target)
    {
      hide Arp, Frame;
      var p := BuildArp(ARP_REQUEST, config.mac, config.ip, Zeros(6), target);
      var ok := SendFrame(Broadcast, ETHERTYPE_ARP, p[..]);
    }

    method ReceiveArp(p: seq<byte>)
      requires Valid()
      modifies this`sent, cache
      ensures View() == HandleArp(old(View()), p)
    {
      if |p| < ARP_LEN {
        return;
      }
      if Get16(p, 0) != 1 || Get16(p, 2) != 0x0800 {
        return;
      }
      hide Arp, Frame, Get32, Learn;
      var senderMac: Mac, senderIp, targetIp := p[8..14], Get32(p, 14), Get32(p, 24);
      CacheLearn(senderIp, senderMac);
      if Get16(p, 6) == ARP_REQUEST && targetIp == config.ip {
        var reply := BuildArp(ARP_REPLY, config.mac, config.ip, senderMac, senderIp);
        var ok := SendFrame(senderMac, ETHERTYPE_ARP, reply[..]);
      }
    }

    // ----- ethernet.c -----

    method SendFrame(dest: Mac, ethertype: u16, payload: seq<byte>) returns (ok: bool)
      requires Valid()
      modifies this`sent
      ensures (View(), ok) == EthSend(old(View()), dest, ethertype, payload)
    {
      hide Frame;
      if |payload| > ETH_MAX_FRAME - ETH_HEADER_LEN {
        return false;
      }
      var frame := BuildFrame(dest, config.mac, ethertype, payload);
      sent := sent + [frame];
      return true;
    }

    method ReceiveFrame(f: seq<byte>)
      requires Valid()
      modifies this, cache
      ensures View() == HandleFrame(old(View()), f)
    {
      hide HandleArp, HandleIp;
      if |f| < ETH_HEADER_LEN {
        return;
      }
      var ethertype := Get16(f, 12);
      if ethertype == ETHERTYPE_ARP {
        ReceiveArp(f[ETH_HEADER_LEN..]);
      } else if ethertype == ETHERTYPE_IPV4 {
        ReceiveIp(f[ETH_HEADER_LEN..]);
      }
    }

    // ----- ip.c -----

    method SendIp(dest: u32, protocol: byte, payload: seq<byte>) returns (ok: bool)
      requires Valid()
      modifies this`sent, this`identification
      ensures (View(), ok) == IpSend(old(View()), dest, protocol, payload)
    {
      hide IpPacket, ArpRequest, Resolve, SameSubnet, Frame;
      if |payload| > IP_MAX_PACKET {
        return false;
      }
      var hop := NextHop(config, dest);
      var mac := ArpResolve(hop);
      if mac.Unknown? {
        SendArpRequest(hop);
        return false;
      }
      var packet := BuildIp(identification, protocol, config.ip, dest, payload);
      identification := (identification as int + 1) % 0x1_0000;
      ok := SendFrame(mac.mac, ETHERTYPE_IPV4, packet);
    }

    method ReceiveIp(p: seq<byte>)
      requires Valid()
      modifies this`sent, this`identification, this`received, this`ping
      ensures View() == HandleIp(old(View()), p)
    {
      hide Internet, Get32, HandleIcmp, HandleUdp;
      if |p| < IP_HEADER_LEN {
        return;
      }
      var version, ihl: int := p[0] / 16, p[0] % 16;
      if version != 4 || ihl < 5 || |p| < ihl * 4 {
        return;
      }
      NoOverflow(p[..ihl * 4]);
      var check := InternetChecksum(p[..ihl * 4]);
      if check != 0 || Get16(p, 6) % 0x4000 != 0 {
        return;
      }
      var total := Get16(p, 2);
      if total > |p| || total < ihl * 4 || Get32(p, 16) != config.ip {
        return;
      }
      var inner := p[ihl * 4..total];
      if p[9] == IP_ICMP {
        ReceiveIcmp(Get32(p, 12), inner);
      } else if p[9] == IP_UDP {
        ReceiveUdp(Get32(p, 12), inner);
      }
    }

    // ----- udp.c -----

    method UdpBind(port: u16, callback: nat) returns (ok: bool)
      requires Valid()
      modifies bindings
      ensures (View(), ok) == Bind(old(View()), port, callback)
    {
      if callback == NO_CALLBACK {
        return false;
      }
      ghost var b := bindings[..];
      for i := 0 to BINDINGS
        invariant bindings[..] == b && FindBinding(b, port, 0) == FindBinding(b, port, i)
      {
        if bindings[i].inUse && bindings[i].port == port {
          bindings[i] := Binding(bindings[i].port, callback, bindings[i].inUse);
          return true;
        }
      }
      for i := 0 to BINDINGS
        invariant bindings[..] == b && FreeBinding(b, 0) == FreeBinding(b, i)
      {
        if !bindings[i].inUse {
          bindings[i] := Binding(port, callback, true);
          return true;
        }
      }
      return false;
    }

    method UdpUnbind(port: u16)
      requires Valid()
      modifies bindings
      ensures View() == Unbind(old(View()), port)
    {
      ghost var b := bindings[..];
      for i := 0 to BINDINGS
        invariant forall j :: 0 <= j < BINDINGS ==>
          bindings[j] == if j < i && b[j].inUse && b[j].port == port then Binding(b[j].port, b[j].callback, false)
                         else b[j]
      {
        if bindings[i].inUse && bindings[i].port == port {
          bindings[i] := Binding(bindings[i].port, bindings[i].callback, false);
        }
      }
      assert bindings[..] == Unbind(old(View()), port).bindings;
    }

    method SendUdp(dest: u32, destPort: u16, sourcePort: u16, data: seq<byte>) returns (ok: bool)
      requires Valid()
      modifies this`sent, this`identification
      ensures (View(), ok) == UdpSend(old(View()), dest, destPort, sourcePort, data)
    {
      hide UdpPacket, IpSend;
      if |data| > UDP_MAX_PAYLOAD {
        return false;
      }
      var packet := BuildUdp(config.ip, dest, sourcePort, destPort, data);
      ok := SendIp(dest, IP_UDP, packet);
    }

    method ReceiveUdp(source: u32, p: seq<byte>)
      requires Valid()
      modifies this`received
      ensures View() == HandleUdp(old(View()), source, p)
    {
      hide UdpChecksum, FindBinding;
      if |p| < UDP_HEADER_LEN {
        return;
      }
      var length, checksum := Get16(p, 4), Get16(p, 6);
      if length > |p| || length < UDP_HEADER_LEN || length > UDP_HEADER_LEN + UDP_MAX_PAYLOAD {
        return;
      }
      if checksum != 0 {
        var same := VerifyUdp(source, p[..length], checksum);
        if !same {
          return;
        }
      }
      Deliver(source, Get16(p, 0), Get16(p, 2), p[UDP_HEADER_LEN..length]);
    }

    /** The checksum over a copy whose checksum field is zero. */
    method VerifyUdp(source: u32, p: seq<byte>, checksum: u16) returns (same: bool)
      requires UDP_HEADER_LEN <= |p| <= UDP_HEADER_LEN + UDP_MAX_PAYLOAD
      ensures same <==> UdpChecksum(source, config.ip, Put16(p, 6, 0)) == checksum
    {
      hide UdpChecksum, Put16;
      var copy := new byte[UDP_HEADER_LEN + UDP_MAX_PAYLOAD];
      Append(copy, 0, p);
      ghost var whole := copy[..];
      assert whole[..|p|] == p;
      Write16(copy, 6, 0);
      PutInFront(whole, |p|, 6, 0);
      assert copy[..|p|] == copy[..][..|p|];
      var recomputed := ComputeUdpChecksum(source, config.ip, copy[..|p|]);
      same := recomputed == checksum;
    }

    /** The first binding of the port gets the datagram. */
    method Deliver(source: u32, sourcePort: u16, port: u16, data: seq<byte>)
      requires Valid()
      modifies this`received
      ensures var i := FindBinding(old(View()).bindings, port, 0);
        View() == if i < 0 then old(View())
                  else Receiving(old(View()), Datagram(old(View()).bindings[i].callback, source, sourcePort, data))
    {
      for i := 0 to BINDINGS
        invariant received == old(received) && FindBinding(bindings[..], port, 0) == FindBinding(bindings[..], port, i)
      {
        if bindings[i].inUse && bindings[i].port == port {
          received := received + [Datagram(bindings[i].callback, source, sourcePort, data)];
          return;
        }
      }
    }

    // ----- icmp.c -----

    method SendPing(dest: u32, identifier: u16, sequence: u16) returns (ok: bool)
      requires Valid()
      modifies this`sent, this`identification, this`ping
      ensures (View(), ok) == PingSend(old(View()), dest, identifier, sequence)
    {
      hide Echo, IpSend;
      var packet := BuildEcho(ECHO_REQUEST, identifier, sequence);
      ping := Ping(true, identifier, sequence, false);
      ok := SendIp(dest, IP_ICMP, packet);
    }

    method ReceiveIcmp(source: u32, p: seq<byte>)
      requires Valid() && |p| <= 0x1_0000
      modifies this`sent, this`identification, this`ping
      ensures View() == HandleIcmp(old(View()), source, p)
    {
      hide Internet, IpSend;
      if |p| < ICMP_LEN {
        return;
      }
      NoOverflow(p);
      var check := InternetChecksum(p);
      if check != 0 {
        return;
      }
      if p[0] == ECHO_REQUEST {
        var reply := BuildReply(p);
        var ok := SendIp(source, IP_ICMP, reply);
      } else if p[0] == ECHO_REPLY {
        if ping.outstanding && ping.identifier == Get16(p, 4) && ping.sequence == Get16(p, 6) {
          ping := Ping(ping.outstanding, ping.identifier, ping.sequence, true);
        }
      }
    }

    method BuildReply(p: seq<byte>) returns (packet: seq<byte>)
      requires |p| >= ICMP_LEN
      ensures var reply := Put16([ECHO_REPLY, 0] + p[2..Min(|p|, ICMP_REPLY_MAX)], 2, 0);
              packet == Put16(reply, 2, Internet(reply))
    {
      hide Internet;
      var length := Min(|p|, ICMP_REPLY_MAX);
      var reply := new byte[length];
      Append(reply, 0, p[..length]);
      assert reply[..] == reply[..length] == p[..length];
      reply[0] := ECHO_REPLY;
      reply[1] := 0;
      assert reply[..] == [ECHO_REPLY, 0] + p[2..length];
      Write16(reply, 2, 0);
      NoOverflow(reply[..]);
      var sum := InternetChecksum(reply[..]);
      Write16(reply, 2, sum);
      packet := reply[..];
    }
  }
}
