/** What a received frame must be to have any effect, and which effect it then has. */
module NetFilter {
  import opened Bytes
  import opened Checksum
  import opened NetPackets
  import opened NetHost
  import opened NetWire

  // ----- Ethernet -----

  /** The two type bytes decide; a frame of any other type, or shorter than its header, is dropped. */
  lemma FrameExactly(h: Host, f: seq<byte>)
    requires Sized(h)
    ensures HandleFrame(h, f) == if |f| >= 14 && Big16(f, 12, 0x0806) then HandleArp(h, f[14..])
                                 else if |f| >= 14 && Big16(f, 12, 0x0800) then HandleIp(h, f[14..])
                                 else h
  {
    if |f| >= 14 {
      Get16IsBig(f, 12, 0x0806);
      Get16IsBig(f, 12, 0x0800);
    }
    hide HandleArp, HandleIp, Get16;
  }

  // ----- ARP -----

  /** Any Ethernet and IPv4 ARP packet teaches its sender's address; a request for this host is answered to that
      sender alone; anything else is dropped. */
  lemma ArpExactly(h: Host, p: seq<byte>, sender: u32, target: u32)
    requires Sized(h) && (|p| >= 28 ==> Big32(p, 14, sender) && Big32(p, 24, target))
    ensures if |p| < 28 || !Big16(p, 0, 1) || !Big16(p, 2, 0x0800) then HandleArp(h, p) == h
            else var learned := WithCache(h, Learn(h.cache, sender, p[8..14]));
              if Big16(p, 6, 1) && target == h.config.ip
              then && Sent(learned, HandleArp(h, p), Answering(h, p[8..14], sender))
                   && EthFrame(Answering(h, p[8..14], sender), p[8..14], h.config.mac, 0x0806,
                               Arp(2, h.config.mac, h.config.ip, p[8..14], sender))
                   && ArpPacket(Arp(2, h.config.mac, h.config.ip, p[8..14], sender), 2, h.config.mac, h.config.ip,
                                p[8..14], sender)
              else HandleArp(h, p) == learned
  {
    if |p| >= 28 {
      Get16IsBig(p, 0, 1);
      Get16IsBig(p, 2, 0x0800);
      Get16IsBig(p, 6, 1);
      GetIsBig(p, 14, sender);
      GetIsBig(p, 24, target);
      ArpIsArp(2, h.config.mac, h.config.ip, p[8..14], sender);
      FrameIsEthernet(p[8..14], h.config.mac, ETHERTYPE_ARP, Arp(2, h.config.mac, h.config.ip, p[8..14], sender));
    }
    hide Get16, Get32, Arp, Frame, Learn, EthFrame, ArpPacket;
  }

  function Answering(h: Host, mac: Mac, ip: u32): seq<byte> {
    Frame(mac, h.config.mac, ETHERTYPE_ARP, Arp(2, h.config.mac, h.config.ip, mac, ip))
  }

  // ----- IPv4 -----

  /** p starts with a header and a payload: version 4, whole, not a fragment, with a header that checks, and
      addressed to this host. */
  predicate IpFor(h: Host, p: seq<byte>, head: seq<byte>, payload: seq<byte>, source: u32, protocol: byte) {
    && 20 <= |head| && |head| % 4 == 0 && |head| + |payload| <= |p| && |head| + |payload| < 0x1_0000
    && head == p[..|head|] && payload == p[|head|..|head| + |payload|]
    && |head| <= 60 && head[0] == 0x40 + |head| / 4 && Big16(head, 2, |head| + |payload|)
    && head[6] % 0x40 == 0 && head[7] == 0 && head[9] == protocol
    && Big32(head, 12, source) && Big32(head, 16, h.config.ip) && Internet(head) == 0
  }

  /** Such a packet goes to its protocol. */
  lemma IpAccepts(h: Host, p: seq<byte>, head: seq<byte>, payload: seq<byte>, source: u32, protocol: byte)
    requires Sized(h) && IpFor(h, p, head, payload, source, protocol)
    ensures HandleIp(h, p) == if protocol == 1 then HandleIcmp(h, source, payload)
                              else if protocol == 17 then HandleUdp(h, source, payload)
                              else h
  {
    SameFields(p, head);
    hide Internet, HandleIcmp, HandleUdp, Get16, Get32;
    Get16IsBig(head, 2, |head| + |payload|);
    FragmentBytes(head);
    GetIsBig(head, 12, source);
    GetIsBig(head, 16, h.config.ip);
    FirstByte(head[0], |head| / 4);
  }

  lemma SameFields(p: seq<byte>, head: seq<byte>)
    requires 20 <= |head| <= |p| && head == p[..|head|]
    ensures Get16(p, 2) == Get16(head, 2) && Get16(p, 6) == Get16(head, 6)
    ensures Get32(p, 12) == Get32(head, 12) && Get32(p, 16) == Get32(head, 16)
    ensures p[0] == head[0] && p[9] == head[9]
  {
  }

  lemma FirstByte(b: byte, words: nat)
    requires words < 16
    ensures b == 0x40 + words <==> b / 16 == 4 && b % 16 == words
  {
  }

  lemma FragmentBytes(s: seq<byte>)
    requires |s| >= 8
    ensures Get16(s, 6) % 0x4000 == 0 <==> s[6] % 0x40 == 0 && s[7] == 0
  {
  }

  /** And a packet that is not such a one has no effect. */
  lemma IpRejects(h: Host, p: seq<byte>) returns (head: seq<byte>, payload: seq<byte>)
    requires Sized(h)
    ensures HandleIp(h, p) != h ==> |p| >= 20 && IpFor(h, p, head, payload, Get32(p, 12), p[9]) && p[9] in {1, 17}
  {
    head, payload := [], [];
    if HandleIp(h, p) != h {
      hide Internet, HandleIcmp, HandleUdp, Get16, Get32;
      var length, total := 4 * (p[0] as int % 16), Get16(p, 2);
      head, payload := p[..length], p[length..total];
      SameFields(p, head);
      FirstByte(p[0], length / 4);
      FragmentBytes(head);
      Get16IsBig(head, 2, total);
      GetIsBig(head, 12, Get32(p, 12));
      GetIsBig(head, 16, h.config.ip);
    }
  }

  /** A header in which one byte was damaged on the way has no effect, wherever the byte is, as long as the
      header still has the length that it was sent with. */
  lemma DamagedHeaderIgnored(h: Host, p: seq<byte>, head: seq<byte>, payload: seq<byte>, source: u32, protocol: byte,
                             k: nat, v: byte)
    requires Sized(h) && IpFor(h, p, head, payload, source, protocol)
    requires k < |head| && v != p[k] && (k == 0 ==> v % 16 == p[0] % 16 || v / 16 != 4)
    ensures HandleIp(h, p[k := v]) == h
  {
    OneByteChanged(head, k, v);
    var q := p[k := v];
    assert q[..|head|] == head[k := v];
    FirstByte(head[0], |head| / 4);
    hide Internet, HandleIcmp, HandleUdp, Get16, Get32, Big16, Big32;
  }

  // ----- UDP -----

  /** p starts with a datagram for this host: whole, not too long, and with no checksum or one that checks. */
  predicate UdpFor(h: Host, source: u32, p: seq<byte>, sourcePort: u16, destPort: u16, data: seq<byte>) {
    && |data| <= 1024 && 8 + |data| <= |p| && data == p[8..8 + |data|]
    && Big16(p, 0, sourcePort) && Big16(p, 2, destPort) && Big16(p, 4, 8 + |data|)
    && ((p[6] == 0 && p[7] == 0) || Internet(Pseudo(source, h.config.ip, 8 + |data|) + p[..8 + |data|]) == 0)
  }

  /** It goes to the callback bound to its port, once, and nowhere if there is none. */
  lemma UdpAccepts(h: Host, source: u32, p: seq<byte>, sourcePort: u16, destPort: u16, data: seq<byte>)
    requires Sized(h) && UdpFor(h, source, p, sourcePort, destPort, data)
    ensures forall callback :: Bound(h, destPort, callback) ==>
              HandleUdp(h, source, p) == Receiving(h, Datagram(callback, source, sourcePort, data))
    ensures (forall i :: 0 <= i < |h.bindings| ==> !(h.bindings[i].inUse && h.bindings[i].port == destPort)) ==>
              HandleUdp(h, source, p) == h
  {
    var q := p[..8 + |data|];
    Get16IsBig(p, 0, sourcePort);
    Get16IsBig(p, 2, destPort);
    Get16IsBig(p, 4, 8 + |data|);
    assert Get16(q, 6) == Get16(p, 6);
    if Get16(p, 6) != 0 {
      ChecksumIsSum(source, h.config.ip, q);
    }
    hide UdpChecksum, Internet, Pseudo, Get16, Put16, Big16;
  }

  lemma UdpRejects(h: Host, source: u32, p: seq<byte>)
    requires Sized(h) && HandleUdp(h, source, p) != h
    ensures |p| >= 8 && 8 <= Get16(p, 4) as int <= |p|
    ensures UdpFor(h, source, p, Get16(p, 0), Get16(p, 2), p[8..Get16(p, 4)])
  {
    var length := Get16(p, 4);
    var q := p[..length];
    Get16IsBig(p, 0, Get16(p, 0));
    Get16IsBig(p, 2, Get16(p, 2));
    Get16IsBig(p, 4, length);
    Get16IsBig(p, 6, 0);
    assert Get16(q, 6) == Get16(p, 6);
    if Get16(p, 6) != 0 {
      ChecksumIsSum(source, h.config.ip, q);
    }
    hide UdpChecksum, Internet, Pseudo, Get16, Put16, FindBinding;
  }

  /** A datagram sent with its checksum in which one byte was damaged on the way is not received: except that a
      damaged checksum may read as none, and a damaged length makes it another datagram. */
  lemma DamagedDatagramIgnored(h: Host, source: u32, p: seq<byte>, sourcePort: u16, destPort: u16, data: seq<byte>,
                               k: nat, v: byte)
    requires Sized(h) && UdpFor(h, source, p, sourcePort, destPort, data) && !(p[6] == 0 && p[7] == 0)
    requires k < 8 + |data| && v != p[k] && k !in {4, 5}
    requires var r := p[k := v]; !(r[6] == 0 && r[7] == 0)
    ensures HandleUdp(h, source, p[k := v]) == h
  {
    var n, r := 8 + |data|, p[k := v];
    var q := Pseudo(source, h.config.ip, n);
    OneByteChanged(q + p[..n], 12 + k, v);
    Get16IsBig(p, 4, n);
    hide Pseudo, HandleUdp, Internet;
    assert (q + p[..n])[12 + k := v] == q + r[..n];
    if HandleUdp(h, source, r) != h {
      UdpRejects(h, source, r);
    }
  }

  // ----- ICMP -----

  /** Every echo request that checks is answered to its sender: type 0, code 0, the request's bytes from the
      fourth on, cut at 576 bytes in all, and a checksum that makes the reply check. */
  lemma EchoExactly(h: Host, source: u32, p: seq<byte>) returns (reply: seq<byte>)
    requires Sized(h) && |p| >= 8 && Internet(p) == 0 && p[0] == 8
    ensures HandleIcmp(h, source, p) == IpSend(h, source, 1, reply).0
    ensures |reply| == (if |p| < 576 then |p| else 576) && reply[0] == 0 && reply[1] == 0
    ensures forall i :: 4 <= i < |reply| ==> reply[i] == p[i]
    ensures Internet(reply) == 0
  {
    hide IpSend, Internet;
    var n := Min(|p|, ICMP_REPLY_MAX);
    var r := Put16([ECHO_REPLY, 0] + p[2..n], 2, 0);
    reply := Put16(r, 2, Internet(r));
    StoredChecksumPasses(r, 2);
  }

  /** A reply is recorded if it is for the ping that is outstanding. */
  lemma ReplyExactly(h: Host, source: u32, p: seq<byte>)
    requires Sized(h) && !(|p| >= 8 && Internet(p) == 0 && p[0] == 8)
    ensures HandleIcmp(h, source, p) ==
            if |p| >= 8 && Internet(p) == 0 && p[0] == 0 && h.ping.outstanding
               && Big16(p, 4, h.ping.identifier) && Big16(p, 6, h.ping.sequence)
            then WithPing(h, Ping(true, h.ping.identifier, h.ping.sequence, true))
            else h
  {
    if |p| >= 8 {
      Get16IsBig(p, 4, h.ping.identifier);
      Get16IsBig(p, 6, h.ping.sequence);
    }
    hide IpSend, Internet, Get16;
  }

  // ----- bindings -----

  /** Binding and unbinding one port leave every other port as it was. */
  lemma OtherPortsStay(h: Host, port: u16, callback: nat, other: u16, c: nat)
    requires port != other
    ensures Bound(Bind(h, port, callback).0, other, c) == Bound(h, other, c)
    ensures Bound(Unbind(h, port), other, c) == Bound(h, other, c)
  {
    var b, u := Bind(h, port, callback).0.bindings, Unbind(h, port).bindings;
    SameFirst(h.bindings, b, other, 0);
    SameFirst(h.bindings, u, other, 0);
  }

  /** Two lists that have the same bindings of one port have the same first one. */
  lemma {:induction false} SameFirst(a: seq<Binding>, b: seq<Binding>, port: u16, i: nat)
    requires |a| == |b| && i <= |a|
    requires forall j :: 0 <= j < |a| ==> (a[j].inUse && a[j].port == port) == (b[j].inUse && b[j].port == port)
    requires forall j :: 0 <= j < |a| && a[j].inUse && a[j].port == port ==> a[j] == b[j]
    ensures FindBinding(a, port, i) == FindBinding(b, port, i)
    ensures var r := FindBinding(a, port, i); r >= 0 ==> a[r] == b[r]
    decreases |a| - i
  {
    if i < |a| {
      assert (a[i].inUse && a[i].port == port) == (b[i].inUse && b[i].port == port);
      SameFirst(a, b, port, i + 1);
    }
  }
}
