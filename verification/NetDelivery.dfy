/** Two hosts on one subnet and a link that carries frames unchanged. */
module NetDelivery {
  import opened Bytes
  import opened Checksum
  import opened NetPackets
  import opened NetHost

  function LastSent(h: Host): seq<byte>
    requires h.sent != []
  {
    h.sent[|h.sent| - 1]
  }

  /** Nothing but the cache and the sent frames differ. */
  predicate SameService(g: Host, h: Host) {
    h.config == g.config && h.bindings == g.bindings && h.received == g.received && h.ping == g.ping
  }

  // ----- one ARP exchange -----

  function Asked(a: Host, b: Host): Host { ArpRequest(a, b.config.ip) }

  lemma AskedIs(a: Host, b: Host)
    ensures Asked(a, b) == Sending(a, Frame(Broadcast, a.config.mac, ETHERTYPE_ARP,
                                            Arp(ARP_REQUEST, a.config.mac, a.config.ip, Zeros(6), b.config.ip)))
  {
    hide Frame, Arp;
  }

  /** The answer: b has learned a's address and sends its own. */
  lemma Answered(a: Host, b: Host)
    requires Sized(a) && Sized(b)
    ensures var b1 := HandleFrame(b, LastSent(Asked(a, b)));
      && b1 == Sending(WithCache(b, Learn(b.cache, a.config.ip, a.config.mac)),
                       Frame(a.config.mac, b.config.mac, ETHERTYPE_ARP,
                             Arp(ARP_REPLY, b.config.mac, b.config.ip, a.config.mac, a.config.ip)))
      && Resolve(b1.cache, a.config.ip) == Resolved(a.config.mac)
  {
    AskedIs(a, b);
    var p := Arp(ARP_REQUEST, a.config.mac, a.config.ip, Zeros(6), b.config.ip);
    FrameDelivers(b, Broadcast, a.config.mac, p);
    var f := Frame(Broadcast, a.config.mac, ETHERTYPE_ARP, p);
    ArpDelivers(b, ARP_REQUEST, a.config.mac, a.config.ip, Zeros(6), b.config.ip, f[ETH_HEADER_LEN..]);
    LearnResolves(b.cache, a.config.ip, a.config.mac);
    hide Frame, Arp, Learn, HandleFrame, HandleArp, Resolve;
  }

  /** After the exchange each knows the other, whatever the two caches held, and no other
      part of either host has changed. */
  lemma Exchanged(a: Host, b: Host)
    requires Sized(a) && Sized(b)
    ensures var a1 := Asked(a, b); a1.sent != []
    ensures var b1 := HandleFrame(b, LastSent(Asked(a, b))); b1.sent != []
    ensures var a1 := Asked(a, b); var b1 := HandleFrame(b, LastSent(a1)); var a2 := HandleFrame(a1, LastSent(b1));
      && Sized(a2) && Sized(b1) && SameService(a, a2) && SameService(b, b1)
      && Resolve(a2.cache, b.config.ip) == Resolved(b.config.mac)
      && Resolve(b1.cache, a.config.ip) == Resolved(a.config.mac)
      && LastSent(a1)[..6] == Broadcast && LastSent(b1)[..6] == a.config.mac
  {
    hide Frame, Arp, Learn, HandleFrame, HandleArp, Resolve, ArpRequest;
    AskedIs(a, b);
    Answered(a, b);
    var a1 := Asked(a, b);
    var p := Arp(ARP_REPLY, b.config.mac, b.config.ip, a.config.mac, a.config.ip);
    var f := Frame(a.config.mac, b.config.mac, ETHERTYPE_ARP, p);
    FrameDelivers(a1, a.config.mac, b.config.mac, p);
    ArpDelivers(a1, ARP_REPLY, b.config.mac, b.config.ip, a.config.mac, a.config.ip, f[ETH_HEADER_LEN..]);
    LearnResolves(a1.cache, b.config.ip, b.config.mac);
    FrameParts(Broadcast, a.config.mac, ETHERTYPE_ARP,
               Arp(ARP_REQUEST, a.config.mac, a.config.ip, Zeros(6), b.config.ip));
    FrameParts(a.config.mac, b.config.mac, ETHERTYPE_ARP, p);
  }

  // ----- one packet -----

  /** A host that knows the next hop sends the packet in one frame. */
  lemma IpSends(a: Host, dest: u32, protocol: byte, payload: seq<byte>, mac: Mac)
    requires |payload| <= IP_MAX_PACKET && SameSubnet(a.config, dest) && Resolve(a.cache, dest) == Resolved(mac)
    ensures IpSend(a, dest, protocol, payload) ==
            (Sending(WithIdentification(a, (a.identification as int + 1) % 0x1_0000),
                     Frame(mac, a.config.mac, ETHERTYPE_IPV4,
                           IpPacket(a.identification, protocol, a.config.ip, dest, payload))), true)
  {
    hide Frame, IpPacket, SameSubnet;
  }

  /** And the receiver hands its payload to the protocol. */
  lemma Carried(a: Host, b: Host, protocol: byte, payload: seq<byte>)
    requires Sized(b) && |payload| <= IP_MAX_PACKET && SameSubnet(a.config, b.config.ip)
    requires Resolve(a.cache, b.config.ip).Resolved?
    ensures var (a1, ok) := IpSend(a, b.config.ip, protocol, payload);
      && ok && a1.sent != [] && SameService(a, a1) && a1.cache == a.cache
      && (protocol == IP_UDP ==> HandleFrame(b, LastSent(a1)) == HandleUdp(b, a.config.ip, payload))
      && (protocol == IP_ICMP ==> HandleFrame(b, LastSent(a1)) == HandleIcmp(b, a.config.ip, payload))
      && LastSent(a1)[..6] == Resolve(a.cache, b.config.ip).mac
  {
    hide Frame, IpPacket, SameSubnet, HandleFrame, HandleIp, HandleUdp, HandleIcmp, Resolve, IpSend;
    var mac := Resolve(a.cache, b.config.ip).mac;
    IpSends(a, b.config.ip, protocol, payload, mac);
    var p := IpPacket(a.identification, protocol, a.config.ip, b.config.ip, payload);
    FrameDelivers(b, mac, a.config.mac, p);
    FrameParts(mac, a.config.mac, ETHERTYPE_IPV4, p);
    IpDelivers(b, a.identification, protocol, a.config.ip, payload,
               Frame(mac, a.config.mac, ETHERTYPE_IPV4, p)[ETH_HEADER_LEN..]);
  }

  // ----- delivery -----

  lemma Delivered(a: Host, b: Host, sourcePort: u16, destPort: u16, data: seq<byte>, callback: nat)
    requires Sized(b) && |data| <= UDP_MAX_PAYLOAD && SameSubnet(a.config, b.config.ip)
    requires Resolve(a.cache, b.config.ip).Resolved? && Bound(b, destPort, callback)
    ensures var (a1, ok) := UdpSend(a, b.config.ip, destPort, sourcePort, data);
      ok && a1.sent != [] && LastSent(a1)[..6] == Resolve(a.cache, b.config.ip).mac
      && HandleFrame(b, LastSent(a1)) == Receiving(b, Datagram(callback, a.config.ip, sourcePort, data))
  {
    hide HandleFrame, HandleUdp, IpSend, UdpPacket, SameSubnet, Resolve, Bound;
    Carried(a, b, IP_UDP, UdpPacket(a.config.ip, b.config.ip, sourcePort, destPort, data));
    UdpDelivers(b, a.config.ip, sourcePort, destPort, data, callback);
  }

  /** A first send that does not know the way asks for it and fails; after the exchange that
      it starts, the same send succeeds, and the receiver's callback runs once, with exactly
      the bytes, the address and the port that were sent. */
  lemma DeliveredAfterExchange(a: Host, b: Host, sourcePort: u16, destPort: u16, data: seq<byte>, callback: nat)
    requires Sized(a) && Sized(b) && |data| <= UDP_MAX_PAYLOAD && SameSubnet(a.config, b.config.ip)
    requires Resolve(a.cache, b.config.ip) == Unknown && Bound(b, destPort, callback)
    ensures UdpSend(a, b.config.ip, destPort, sourcePort, data) == (Asked(a, b), false)
    ensures Asked(a, b).sent != [] && HandleFrame(b, LastSent(Asked(a, b))).sent != []
    ensures var b1 := HandleFrame(b, LastSent(Asked(a, b)));
      var a2 := HandleFrame(Asked(a, b), LastSent(b1));
      var (a3, ok) := UdpSend(a2, b.config.ip, destPort, sourcePort, data);
      && ok && a3.sent != [] && LastSent(a3)[..6] == b.config.mac
      && HandleFrame(b1, LastSent(a3)).received == b.received + [Datagram(callback, a.config.ip, sourcePort, data)]
  {
    FirstSendAsks(a, b, sourcePort, destPort, data);
    hide HandleFrame, UdpSend, SameSubnet, Resolve, Asked;
    Exchanged(a, b);
    var b1 := HandleFrame(b, LastSent(Asked(a, b)));
    var a2 := HandleFrame(Asked(a, b), LastSent(b1));
    Delivered(a2, b1, sourcePort, destPort, data, callback);
  }

  lemma FirstSendAsks(a: Host, b: Host, sourcePort: u16, destPort: u16, data: seq<byte>)
    requires |data| <= UDP_MAX_PAYLOAD && SameSubnet(a.config, b.config.ip) && Resolve(a.cache, b.config.ip) == Unknown
    ensures UdpSend(a, b.config.ip, destPort, sourcePort, data) == (Asked(a, b), false)
  {
    hide UdpPacket, ArpRequest, SameSubnet;
  }

  // ----- ping -----

  /** The echo of a request is the reply with the same identifier and sequence. */
  lemma EchoAnswered(b: Host, source: u32, identifier: u16, sequence: u16)
    requires Sized(b)
    ensures HandleIcmp(b, source, Echo(ECHO_REQUEST, identifier, sequence))
            == IpSend(b, source, IP_ICMP, Echo(ECHO_REPLY, identifier, sequence)).0
  {
    hide IpSend, Internet;
    var p := Echo(ECHO_REQUEST, identifier, sequence);
    EchoParts(ECHO_REQUEST, identifier, sequence);
    var reply := Put16([ECHO_REPLY, 0] + p[2..Min(|p|, ICMP_REPLY_MAX)], 2, 0);
    assert p[4..] == Word16(identifier) + Word16(sequence);
    assert reply == Echo0(ECHO_REPLY, identifier, sequence);
  }

  lemma ReplyAccepted(a: Host, source: u32, identifier: u16, sequence: u16)
    requires Sized(a) && a.ping == Ping(true, identifier, sequence, false)
    ensures HandleIcmp(a, source, Echo(ECHO_REPLY, identifier, sequence))
            == WithPing(a, Ping(true, identifier, sequence, true))
  {
    EchoParts(ECHO_REPLY, identifier, sequence);
    hide Echo, Internet, IpSend;
  }

  /** Between hosts that know each other a ping is answered, and the answer is seen. */
  lemma PingAnswered(a: Host, b: Host, identifier: u16, sequence: u16)
    requires Sized(a) && Sized(b) && SameSubnet(a.config, b.config.ip) && SameSubnet(b.config, a.config.ip)
    requires Resolve(a.cache, b.config.ip).Resolved? && Resolve(b.cache, a.config.ip).Resolved?
    ensures var (a1, ok) := PingSend(a, b.config.ip, identifier, sequence);
      && ok && a1.sent != [] && !Replied(a1, identifier, sequence)
      && var b1 := HandleFrame(b, LastSent(a1));
         b1.sent != [] && Sized(a1) && Replied(HandleFrame(a1, LastSent(b1)), identifier, sequence)
  {
    hide SameSubnet, Resolve, HandleFrame, HandleIcmp, HandleUdp, IpSend, Echo;
    var pinging := WithPing(a, Ping(true, identifier, sequence, false));
    Carried(pinging, b, IP_ICMP, Echo(ECHO_REQUEST, identifier, sequence));
    var a1 := PingSend(a, b.config.ip, identifier, sequence).0;
    EchoAnswered(b, a.config.ip, identifier, sequence);
    Carried(b, a1, IP_ICMP, Echo(ECHO_REPLY, identifier, sequence));
    ReplyAccepted(a1, b.config.ip, identifier, sequence);
  }
}
