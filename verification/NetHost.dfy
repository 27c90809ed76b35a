/** One machine's network stack as a state: its addresses, ARP cache, UDP bindings and ping,
    the frames it has sent and the datagrams its callbacks have received. */
module NetHost {
  import opened Bytes
  import opened Checksum
  import opened NetPackets

  const CACHE := 8
  const BINDINGS := 4
  /** The null function pointer. */
  const NO_CALLBACK := 0

  datatype Entry = Entry(ip: u32, mac: Mac, inUse: bool)
  datatype Binding = Binding(port: u16, callback: nat, inUse: bool)
  datatype Ping = Ping(outstanding: bool, identifier: u16, sequence: u16, replied: bool)
  datatype Datagram = Datagram(callback: nat, source: u32, sourcePort: u16, data: seq<byte>)

  datatype Config = Config(mac: Mac, ip: u32, gateway: u32, mask: u32)

  datatype Host = Host(config: Config, cache: seq<Entry>, bindings: seq<Binding>, identification: u16, ping: Ping,
                       sent: seq<seq<byte>>, received: seq<Datagram>)

  predicate Sized(h: Host) { |h.cache| == CACHE && |h.bindings| == BINDINGS }

  function WithCache(h: Host, cache: seq<Entry>): Host {
    Host(h.config, cache, h.bindings, h.identification, h.ping, h.sent, h.received)
  }

  function WithBindings(h: Host, bindings: seq<Binding>): Host {
    Host(h.config, h.cache, bindings, h.identification, h.ping, h.sent, h.received)
  }

  function WithIdentification(h: Host, identification: u16): Host {
    Host(h.config, h.cache, h.bindings, identification, h.ping, h.sent, h.received)
  }

  function WithPing(h: Host, ping: Ping): Host {
    Host(h.config, h.cache, h.bindings, h.identification, ping, h.sent, h.received)
  }

  function Sending(h: Host, frame: seq<byte>): Host {
    Host(h.config, h.cache, h.bindings, h.identification, h.ping, h.sent + [frame], h.received)
  }

  function Receiving(h: Host, d: Datagram): Host {
    Host(h.config, h.cache, h.bindings, h.identification, h.ping, h.sent, h.received + [d])
  }

  // ----- src/kernel/arp.c: the cache -----

  /** The first used entry for an address, or -1. */
  function Find(cache: seq<Entry>, ip: u32, i: nat): (r: int)
    requires i <= |cache|
    ensures r == -1 || (i <= r < |cache| && cache[r].inUse && cache[r].ip == ip)
    ensures forall j :: i <= j < (if r == -1 then |cache| else r) ==> !(cache[j].inUse && cache[j].ip == ip)
    decreases |cache| - i
  {
    if i == |cache| then -1 else if cache[i].inUse && cache[i].ip == ip then i else Find(cache, ip, i + 1)
  }

  function FirstFree(cache: seq<Entry>, i: nat): (r: int)
    requires i <= |cache|
    ensures r == -1 || (i <= r < |cache| && !cache[r].inUse)
    decreases |cache| - i
  {
    if i == |cache| then -1 else if !cache[i].inUse then i else FirstFree(cache, i + 1)
  }

  /** cache_learn: the entry for the address, else a free one, else the first. */
  function Learn(cache: seq<Entry>, ip: u32, mac: Mac): (r: seq<Entry>)
    requires |cache| == CACHE
    ensures |r| == CACHE
  {
    var i := Find(cache, ip, 0);
    if i >= 0 then cache[i := Entry(cache[i].ip, mac, cache[i].inUse)]
    else
      var free := FirstFree(cache, 0);
      cache[if free >= 0 then free else 0 := Entry(ip, mac, true)]
  }

  datatype Resolution = Unknown | Resolved(mac: Mac)

  function Resolve(cache: seq<Entry>, ip: u32): Resolution {
    var i := Find(cache, ip, 0);
    if i >= 0 then Resolved(cache[i].mac) else Unknown
  }

  /** However full the cache is, what was learned last resolves. */
  lemma LearnResolves(cache: seq<Entry>, ip: u32, mac: Mac)
    requires |cache| == CACHE
    ensures Resolve(Learn(cache, ip, mac), ip) == Resolved(mac)
  {
    var r := Learn(cache, ip, mac);
    var i := Find(cache, ip, 0);
    var at := if i >= 0 then i else if FirstFree(cache, 0) >= 0 then FirstFree(cache, 0) else 0;
    assert r[at] == Entry(ip, mac, true);
    assert forall j :: 0 <= j < at ==> r[j] == cache[j];
  }

  /** Learning one address loses at most one other: the first entry's, when the cache is full. */
  lemma LearnKeeps(cache: seq<Entry>, ip: u32, mac: Mac, other: u32)
    requires |cache| == CACHE && other != ip
    ensures Resolve(Learn(cache, ip, mac), other) == Resolve(cache, other)
            || (Find(cache, ip, 0) == -1 && FirstFree(cache, 0) == -1 && cache[0].ip == other)
  {
    var r := Learn(cache, ip, mac);
    var i, k, k' := Find(cache, ip, 0), Find(cache, other, 0), Find(r, other, 0);
    var at := if i >= 0 then i else if FirstFree(cache, 0) >= 0 then FirstFree(cache, 0) else 0;
    assert forall j :: 0 <= j < CACHE && j != at ==> r[j] == cache[j];
    assert r[at].ip == ip;
    assert k' >= 0 ==> cache[k'] == r[k'];
    if k >= 0 && k != at {
      assert r[k] == cache[k];
    } else if k == at && i == -1 && FirstFree(cache, 0) == -1 {
      assert cache[0].ip == other;
    }
  }

  // ----- sending -----

  /** eth_send: false only for a payload that is too long. */
  function EthSend(h: Host, dest: Mac, ethertype: u16, payload: seq<byte>): (Host, bool) {
    if |payload| > ETH_MAX_FRAME - ETH_HEADER_LEN then (h, false)
    else (Sending(h, Frame(dest, h.config.mac, ethertype, payload)), true)
  }

  function ArpRequest(h: Host, target: u32): Host {
    EthSend(h, Broadcast, ETHERTYPE_ARP, Arp(ARP_REQUEST, h.config.mac, h.config.ip, Zeros(6), target)).0
  }

  predicate SameSubnet(c: Config, dest: u32) {
    c.mask == 0 || And(dest, c.mask) == And(c.ip, c.mask)
  }

  function NextHop(c: Config, dest: u32): u32 { if SameSubnet(c, dest) then dest else c.gateway }

  /** ip_send: an unknown next hop is asked for, and the packet is not sent. */
  function IpSend(h: Host, dest: u32, protocol: byte, payload: seq<byte>): (Host, bool) {
    if |payload| > IP_MAX_PACKET then (h, false)
    else
      var hop := NextHop(h.config, dest);
      match Resolve(h.cache, hop)
      case Unknown => (ArpRequest(h, hop), false)
      case Resolved(mac) =>
        var packet := IpPacket(h.identification, protocol, h.config.ip, dest, payload);
        EthSend(WithIdentification(h, (h.identification as int + 1) % 0x1_0000), mac, ETHERTYPE_IPV4, packet)
  }

  function UdpSend(h: Host, dest: u32, destPort: u16, sourcePort: u16, data: seq<byte>): (Host, bool) {
    if |data| > UDP_MAX_PAYLOAD then (h, false)
    else IpSend(h, dest, IP_UDP, UdpPacket(h.config.ip, dest, sourcePort, destPort, data))
  }

  function PingSend(h: Host, dest: u32, identifier: u16, sequence: u16): (Host, bool) {
    IpSend(WithPing(h, Ping(true, identifier, sequence, false)), dest, IP_ICMP,
           Echo(ECHO_REQUEST, identifier, sequence))
  }

  predicate Replied(h: Host, identifier: u16, sequence: u16) {
    h.ping.replied && h.ping.identifier == identifier && h.ping.sequence == sequence
  }

  // ----- UDP bindings -----

  function FindBinding(b: seq<Binding>, port: u16, i: nat): (r: int)
    requires i <= |b|
    ensures r == -1 || (i <= r < |b| && b[r].inUse && b[r].port == port)
    ensures forall j :: i <= j < (if r == -1 then |b| else r) ==> !(b[j].inUse && b[j].port == port)
    decreases |b| - i
  {
    if i == |b| then -1 else if b[i].inUse && b[i].port == port then i else FindBinding(b, port, i + 1)
  }

  function FreeBinding(b: seq<Binding>, i: nat): (r: int)
    requires i <= |b|
    ensures r == -1 || (i <= r < |b| && !b[r].inUse)
    ensures forall j :: i <= j < (if r == -1 then |b| else r) ==> b[j].inUse
    decreases |b| - i
  {
    if i == |b| then -1 else if !b[i].inUse then i else FreeBinding(b, i + 1)
  }

  function Bind(h: Host, port: u16, callback: nat): (Host, bool) {
    var i := FindBinding(h.bindings, port, 0);
    var free := FreeBinding(h.bindings, 0);
    if callback == NO_CALLBACK then (h, false)
    else if i >= 0 then (WithBindings(h, h.bindings[i := Binding(port, callback, true)]), true)
    else if free >= 0 then (WithBindings(h, h.bindings[free := Binding(port, callback, true)]), true)
    else (h, false)
  }

  function Unbind(h: Host, port: u16): Host {
    WithBindings(h, seq(|h.bindings|, i requires 0 <= i < |h.bindings| =>
      var b := h.bindings[i]; if b.inUse && b.port == port then Binding(b.port, b.callback, false) else b))
  }

  predicate Bound(h: Host, port: u16, callback: nat) {
    var i := FindBinding(h.bindings, port, 0);
    i >= 0 && h.bindings[i].callback == callback
  }

  lemma BindBinds(h: Host, port: u16, callback: nat)
    ensures Bind(h, port, callback).1 <==>
            callback != NO_CALLBACK && (FindBinding(h.bindings, port, 0) >= 0 || FreeBinding(h.bindings, 0) >= 0)
    ensures Bind(h, port, callback).1 ==> Bound(Bind(h, port, callback).0, port, callback)
    ensures FindBinding(Unbind(h, port).bindings, port, 0) == -1
  {
    var i, free := FindBinding(h.bindings, port, 0), FreeBinding(h.bindings, 0);
    var at := if i >= 0 then i else free;
    if at >= 0 && callback != NO_CALLBACK {
      var b := Bind(h, port, callback).0.bindings;
      assert b[at] == Binding(port, callback, true);
      assert forall j :: 0 <= j < at ==> b[j] == h.bindings[j];
    }
  }

  // ----- receiving -----

  function HandleArp(h: Host, p: seq<byte>): (r: Host)
    requires Sized(h)
    ensures Sized(r)
  {
    if |p| < ARP_LEN || Get16(p, 0) != 1 || Get16(p, 2) != 0x0800 then h
    else
      var learned := WithCache(h, Learn(h.cache, Get32(p, 14), p[8..14]));
      if Get16(p, 6) == ARP_REQUEST && Get32(p, 24) == h.config.ip then
        EthSend(learned, p[8..14], ETHERTYPE_ARP, Arp(ARP_REPLY, h.config.mac, h.config.ip, p[8..14], Get32(p, 14))).0
      else learned
  }

  function HandleUdp(h: Host, source: u32, p: seq<byte>): (r: Host)
    requires Sized(h)
    ensures Sized(r)
  {
    if |p| < UDP_HEADER_LEN then h
    else
      var length := Get16(p, 4);
      if length > |p| || length < UDP_HEADER_LEN || length > UDP_HEADER_LEN + UDP_MAX_PAYLOAD then h
      else if Get16(p, 6) != 0 && UdpChecksum(source, h.config.ip, Put16(p[..length], 6, 0)) != Get16(p, 6) then h
      else
        var i := FindBinding(h.bindings, Get16(p, 2), 0);
        if i < 0 then h
        else Receiving(h, Datagram(h.bindings[i].callback, source, Get16(p, 0), p[UDP_HEADER_LEN..length]))
  }

  function HandleIcmp(h: Host, source: u32, p: seq<byte>): (r: Host)
    requires Sized(h)
    ensures Sized(r)
  {
    if |p| < ICMP_LEN || Internet(p) != 0 then h
    else if p[0] == ECHO_REQUEST then
      var reply := Put16([ECHO_REPLY, 0] + p[2..Min(|p|, ICMP_REPLY_MAX)], 2, 0);
      IpSend(h, source, IP_ICMP, Put16(reply, 2, Internet(reply))).0
    else if p[0] == ECHO_REPLY && h.ping.outstanding && h.ping.identifier == Get16(p, 4)
        && h.ping.sequence == Get16(p, 6) then
      WithPing(h, Ping(true, h.ping.identifier, h.ping.sequence, true))
    else h
  }

  function HandleIp(h: Host, p: seq<byte>): (r: Host)
    requires Sized(h)
    ensures Sized(r)
  {
    if |p| < IP_HEADER_LEN then h
    else
      var header := 4 * (p[0] as int % 16);
      if p[0] / 16 != 4 || p[0] % 16 < 5 || |p| < header || Internet(p[..header]) != 0 then h
      else if Get16(p, 6) % 0x4000 != 0 then h
      else
        var total := Get16(p, 2);
        if total > |p| || total < header || Get32(p, 16) != h.config.ip then h
        else if p[9] == IP_ICMP then HandleIcmp(h, Get32(p, 12), p[header..total])
        else if p[9] == IP_UDP then HandleUdp(h, Get32(p, 12), p[header..total])
        else h
  }

  function HandleFrame(h: Host, f: seq<byte>): (r: Host)
    requires Sized(h)
    ensures Sized(r)
  {
    if |f| < ETH_HEADER_LEN then h
    else if Get16(f, 12) == ETHERTYPE_ARP then HandleArp(h, f[ETH_HEADER_LEN..])
    else if Get16(f, 12) == ETHERTYPE_IPV4 then HandleIp(h, f[ETH_HEADER_LEN..])
    else h
  }

  // ----- what gets through -----

  /** A packet for this host gives its payload to the protocol, padding or not. */
  lemma IpDelivers(h: Host, identification: u16, protocol: byte, source: u32, payload: seq<byte>, frame: seq<byte>)
    requires Sized(h) && |payload| <= IP_MAX_PACKET
    requires var p := IpPacket(identification, protocol, source, h.config.ip, payload);
             |frame| >= |p| && frame[..|p|] == p
    ensures protocol == IP_UDP ==> HandleIp(h, frame) == HandleUdp(h, source, payload)
    ensures protocol == IP_ICMP ==> HandleIp(h, frame) == HandleIcmp(h, source, payload)
  {
    hide Internet, HandleUdp, HandleIcmp, Get32;
    var total: u16 := IP_HEADER_LEN + |payload|;
    var head := IpHeader(total, identification, protocol, source, h.config.ip);
    var p := IpPacket(identification, protocol, source, h.config.ip, payload);
    IpHeaderParts(total, identification, protocol, source, h.config.ip);
    hide IpHeader;
    assert p[..IP_HEADER_LEN] == head && p[IP_HEADER_LEN..] == payload;
    assert frame[..IP_HEADER_LEN] == head;
    assert frame[IP_HEADER_LEN..total] == payload;
    FrontFields(head, frame);
  }

  /** Fields read from a longer buffer are those of its front. */
  lemma FrontFields(head: seq<byte>, frame: seq<byte>)
    requires |head| == IP_HEADER_LEN && |frame| >= IP_HEADER_LEN && frame[..IP_HEADER_LEN] == head
    ensures frame[0] == head[0] && frame[9] == head[9] && Get16(frame, 2) == Get16(head, 2)
            && Get16(frame, 6) == Get16(head, 6)
    ensures Get32(frame, 12) == Get32(head, 12) && Get32(frame, 16) == Get32(head, 16)
  {
    assert forall i :: 0 <= i < IP_HEADER_LEN ==> frame[i] == head[i];
  }

  lemma UdpDelivers(h: Host, source: u32, sourcePort: u16, destPort: u16, data: seq<byte>, callback: nat)
    requires Sized(h) && |data| <= UDP_MAX_PAYLOAD && Bound(h, destPort, callback)
    ensures HandleUdp(h, source, UdpPacket(source, h.config.ip, sourcePort, destPort, data))
            == Receiving(h, Datagram(callback, source, sourcePort, data))
  {
    hide UdpChecksum;
    var p := UdpPacket(source, h.config.ip, sourcePort, destPort, data);
    UdpParts(source, h.config.ip, sourcePort, destPort, data);
    assert p[..|p|] == p;
    hide UdpPacket, Get16, Put16;
  }

  lemma FrameDelivers(h: Host, dest: Mac, src: Mac, payload: seq<byte>)
    requires Sized(h)
    ensures var f := Frame(dest, src, ETHERTYPE_ARP, payload);
            HandleFrame(h, f) == HandleArp(h, f[ETH_HEADER_LEN..]) && f[ETH_HEADER_LEN..][..|payload|] == payload
    ensures var f := Frame(dest, src, ETHERTYPE_IPV4, payload);
            HandleFrame(h, f) == HandleIp(h, f[ETH_HEADER_LEN..]) && f[ETH_HEADER_LEN..][..|payload|] == payload
  {
    FrameParts(dest, src, ETHERTYPE_ARP, payload);
    FrameParts(dest, src, ETHERTYPE_IPV4, payload);
    hide Frame, HandleArp, HandleIp;
  }

  /** An ARP packet in a padded frame is read as it was written. */
  lemma ArpDelivers(h: Host, op: u16, senderMac: Mac, senderIp: u32, targetMac: Mac, targetIp: u32, p: seq<byte>)
    requires Sized(h) && |p| >= ARP_LEN && p[..ARP_LEN] == Arp(op, senderMac, senderIp, targetMac, targetIp)
    ensures HandleArp(h, p) ==
      var learned := WithCache(h, Learn(h.cache, senderIp, senderMac));
      if op == ARP_REQUEST && targetIp == h.config.ip then
        Sending(learned, Frame(senderMac, h.config.mac, ETHERTYPE_ARP,
                               Arp(ARP_REPLY, h.config.mac, h.config.ip, senderMac, senderIp)))
      else learned
  {
    ArpParts(op, senderMac, senderIp, targetMac, targetIp);
    var q := p[..ARP_LEN];
    assert forall i :: 0 <= i < ARP_LEN ==> p[i] == q[i];
    assert p[8..14] == q[8..14];
    assert Get32(p, 14) == Get32(q, 14) && Get32(p, 24) == Get32(q, 24);
    hide Arp, Frame, Learn, Get32;
  }
}
