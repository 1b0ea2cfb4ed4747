// internal/network/dhcp_linux.go: the DISCOVER frame that is sent, and the
// test for an OFFER.
module DhcpPacket {
  import opened Wrappers
  import opened Bytes
  import opened Checksum
  import opened DhcpOptions

  // ----- the frame as its parts -----

  function Zeros(n: nat): bytes
  {
    seq(n, _ => 0)
  }

  const COOKIE: bytes := [99, 130, 83, 99]

  function Bootp(mac: bytes, transaction: bytes): bytes
  {
    [1, 1, 6, 0] + transaction + [0, 0, 0x80, 0] + Zeros(16) + mac + Zeros(202) + COOKIE
  }

  function DiscoverOptions(mac: bytes): seq<Item>
  {
    [Option(53, [1]), Option(61, [1] + mac), Option(55, [1, 3, 6, 51, 54])]
  }

  function OptionField(mac: bytes): bytes
  {
    [53, 1, 1, 61, 7, 1] + mac + [55, 5, 1, 3, 6, 51, 54, END]
  }

  function Ethernet(mac: bytes): bytes
  {
    [0xFF, 0xFF, 0xFF, 0xFF, 0xFF, 0xFF] + mac + [0x08, 0x00]
  }

  function Word(n: nat): (r: bytes)
    ensures |r| == 2
  {
    [n / 0x100 % 0x100, n % 0x100]
  }

  // The IP header of a packet of `length` bytes before its checksum, which
  // sits at bytes 10 and 11.
  function IpBase(length: nat): (r: bytes)
    ensures |r| == 20 && r[0] == 0x45 && r[10] == 0 && r[11] == 0
  {
    [0x45, 0] + Word(length) + [0, 0, 0, 0, 64, 17, 0, 0, 0, 0, 0, 0, 0xFF, 0xFF, 0xFF, 0xFF]
  }

  function IpHeader(length: nat): (r: bytes)
    ensures |r| == 20 && r[0] == 0x45
  {
    Stored(IpBase(length), 10, ChecksumOf(IpBase(length)))
  }

  function UdpHeader(length: nat): (r: bytes)
    ensures |r| == 8
  {
    [0, 68, 0, 67] + Word(length) + [0, 0]
  }

  function Message(mac: bytes, transaction: bytes): bytes
  {
    Bootp(mac, transaction) + OptionField(mac)
  }

  function Frame(mac: bytes, transaction: bytes): bytes
  {
    var dhcp := Message(mac, transaction);
    Ethernet(mac) + IpHeader(28 + |dhcp|) + UdpHeader(8 + |dhcp|) + dhcp
  }

  // ----- building it in place -----

  method CopyInto(a: array<byte>, at: nat, data: bytes)
    requires at + |data| <= a.Length
    modifies a
    ensures forall k :: at <= k < at + |data| ==> a[k] == data[k - at]
    ensures forall k :: 0 <= k < a.Length && !(at <= k < at + |data|) ==> a[k] == old(a[k])
  {
    for i := 0 to |data|
      invariant forall k :: at <= k < at + i ==> a[k] == data[k - at]
      invariant forall k :: 0 <= k < a.Length && !(at <= k < at + i) ==> a[k] == old(a[k])
    {
      a[at + i] := data[i];
    }
  }

  method PutUint16(a: array<byte>, at: nat, value: int)
    requires at + 2 <= a.Length && 0 <= value < 0x1_0000
    modifies a
    ensures a[at] == value / 0x100 && a[at + 1] == value % 0x100
    ensures forall k :: 0 <= k < a.Length && k != at && k != at + 1 ==> a[k] == old(a[k])
  {
    a[at], a[at + 1] := value / 0x100, value % 0x100;
  }

  method BuildBootp(mac: bytes, transaction: bytes) returns (a: array<byte>)
    requires |mac| == 6 && |transaction| == 4
    ensures fresh(a) && a[..] == Bootp(mac, transaction)
  {
    a := new byte[240](_ => 0);
    a[0], a[1], a[2] := 1, 1, 6;
    CopyInto(a, 4, transaction);
    PutUint16(a, 10, 0x8000);
    CopyInto(a, 28, mac);
    CopyInto(a, 236, COOKIE);
    assert a[..12] == [1, 1, 6, 0] + transaction + [0, 0, 0x80, 0];
    assert a[12..28] == Zeros(16);
    assert a[28..34] == mac;
    assert a[34..236] == Zeros(202);
    assert a[236..] == COOKIE;
    assert a[..] == a[..12] + a[12..28] + a[28..34] + a[34..236] + a[236..];
  }

  method BuildMessage(mac: bytes, transaction: bytes) returns (dhcp: bytes)
    requires |mac| == 6 && |transaction| == 4
    ensures dhcp == Message(mac, transaction) && |dhcp| == 260
  {
    var a := BuildBootp(mac, transaction);
    var options := [53, 1, 1, 61, 7, 1, mac[0], mac[1], mac[2], mac[3], mac[4], mac[5], 55, 5, 1, 3, 6, 51, 54, 255];
    assert options == OptionField(mac);
    dhcp := a[..] + options;
  }

  method WriteEthernet(packet: array<byte>, mac: bytes)
    requires |mac| == 6 && packet.Length > 42
    modifies packet
    ensures packet[..14] == Ethernet(mac)
    ensures forall k :: 14 <= k < packet.Length ==> packet[k] == old(packet[k])
  {
    for i := 0 to 6
      invariant forall k :: 0 <= k < i ==> packet[k] == 0xFF
      invariant forall k :: i <= k < packet.Length ==> packet[k] == old(packet[k])
    {
      packet[i] := 0xFF;
    }
    CopyInto(packet, 6, mac);
    PutUint16(packet, 12, 0x0800);
  }

  method WriteIpBase(packet: array<byte>, ipLength: nat)
    requires packet.Length > 42 && ipLength < 0x1_0000
    requires forall k :: 14 <= k < 34 ==> packet[k] == 0
    modifies packet
    ensures packet[14..34] == IpBase(ipLength)
    ensures forall k :: 0 <= k < packet.Length && !(14 <= k < 34) ==> packet[k] == old(packet[k])
  {
    packet[14] := 0x45;
    PutUint16(packet, 16, ipLength);
    packet[22], packet[23] := 64, 17;
    CopyInto(packet, 30, [0xFF, 0xFF, 0xFF, 0xFF]);
    assert packet[14..16] == [0x45, 0] && packet[16..18] == Word(ipLength);
    assert packet[18..30] == [0, 0, 0, 0, 64, 17, 0, 0, 0, 0, 0, 0] && packet[30..34] == [0xFF, 0xFF, 0xFF, 0xFF];
    assert packet[14..34] == packet[14..16] + packet[16..18] + packet[18..30] + packet[30..34];
  }

  method WriteIp(packet: array<byte>, ipLength: nat)
    requires packet.Length > 42 && ipLength < 0x1_0000
    requires forall k :: 14 <= k < 34 ==> packet[k] == 0
    modifies packet
    ensures packet[14..34] == IpHeader(ipLength)
    ensures forall k :: 0 <= k < packet.Length && !(14 <= k < 34) ==> packet[k] == old(packet[k])
  {
    WriteIpBase(packet, ipLength);
    ghost var base := packet[14..34];
    var c := InternetChecksum(packet[14..34]);
    PutUint16(packet, 24, c);
    assert packet[14..34] == base[..10] + [c / 0x100, c % 0x100] + base[12..];
  }

  method WriteUdp(packet: array<byte>, udpLength: nat)
    requires packet.Length > 42 && udpLength < 0x1_0000
    requires forall k :: 34 <= k < 42 ==> packet[k] == 0
    modifies packet
    ensures packet[34..42] == UdpHeader(udpLength)
    ensures forall k :: 0 <= k < packet.Length && !(34 <= k < 42) ==> packet[k] == old(packet[k])
  {
    PutUint16(packet, 34, 68);
    PutUint16(packet, 36, 67);
    PutUint16(packet, 38, udpLength);
  }

  method BuildDHCPDiscover(mac: bytes, transaction: bytes) returns (packet: array<byte>)
    requires |mac| == 6 && |transaction| == 4
    ensures fresh(packet) && packet[..] == Frame(mac, transaction)
  {
    var dhcp := BuildMessage(mac, transaction);
    var udpLength := 8 + |dhcp|;
    var ipLength := 20 + udpLength;
    packet := new byte[14 + ipLength](_ => 0);
    WriteEthernet(packet, mac);
    ghost var ethernet := packet[..14];
    WriteIp(packet, ipLength);
    ghost var ip := packet[14..34];
    WriteUdp(packet, udpLength);
    ghost var udp := packet[34..42];
    CopyInto(packet, 42, dhcp);
    Parts(packet[..], ethernet, ip, udp, dhcp);
  }

  lemma Parts(whole: bytes, a: bytes, b: bytes, c: bytes, d: bytes)
    requires |a| == 14 && |b| == 20 && |c| == 8 && |whole| == 42 + |d|
    requires whole[..14] == a && whole[14..34] == b && whole[34..42] == c && whole[42..] == d
    ensures whole == a + b + c + d
  {
  }

  // The header that is sent passes its own checksum.
  lemma SentHeaderVerifies(length: nat)
    ensures ChecksumOf(IpHeader(length)) == 0
  {
    StoredChecksumVerifies(IpBase(length), 10);
  }

  // The options of the message read back as they were meant.
  lemma DiscoverReadsBack(mac: bytes)
    requires |mac| == 6
    ensures Items(OptionField(mac)) == DiscoverOptions(mac)
    ensures Table(Items(OptionField(mac))) == map[53 := [1], 61 := [1] + mac, 55 := [1, 3, 6, 51, 54]]
  {
    var a, b, c := Option(53, [1]), Option(61, [1] + mac), Option(55, [1, 3, 6, 51, 54]);
    var none: seq<Item> := [];
    WireCons(c, none);
    WireCons(b, [c] + none);
    WireCons(a, [b] + ([c] + none));
    assert DiscoverOptions(mac) == [a] + ([b] + ([c] + none));
    assert OptionField(mac) == WireItem(a) + (WireItem(b) + (WireItem(c) + [])) + [END];
    SplitIsUnique(DiscoverOptions(mac), [END]);
    ThreeOptions(a, b, c);
  }

  lemma ThreeOptions(a: Item, b: Item, c: Item)
    requires a.Option? && b.Option? && c.Option?
    ensures Table([a, b, c]) == map[a.code := a.value][b.code := b.value][c.code := c.value]
  {
    var none: seq<Item> := [];
    TableSnoc([a, b], c);
    TableSnoc([a], b);
    TableSnoc(none, a);
    assert none + [a] == [a] && [a] + [b] == [a, b] && [a, b] + [c] == [a, b, c];
  }

  // ----- the test for an offer -----

  datatype Offer = Offer(address: bytes, server: bytes)

  function HeaderLength(packet: bytes): int
    requires |packet| > 14
  {
    (packet[14] as int % 16) * 4
  }

  // A frame long enough for the IP header it announces, between the DHCP
  // ports, from the server's to the client's.
  predicate FromServer(packet: bytes)
  {
    && |packet| >= 282 && packet[12..14] == [0x08, 0x00]
    && HeaderLength(packet) >= 20 && |packet| >= 14 + HeaderLength(packet) + 248
    && packet[14 + HeaderLength(packet)..][0..4] == [0, 67, 0, 68]
  }

  // From a server, with the transaction and the cookie, and OFFER as its
  // message type.
  predicate IsOffer(packet: bytes, transaction: bytes)
  {
    && FromServer(packet)
    && var dhcp := packet[22 + HeaderLength(packet)..];
    && dhcp[0] == 2 && dhcp[4..8] == transaction && dhcp[236..240] == COOKIE
    && var options := Table(Items(dhcp[240..]));
    && 53 in options && options[53] == [2]
  }

  lemma SameWord(data: bytes, at: nat, hi: byte, lo: byte)
    ensures at + 2 <= |data| ==>
              (BigEndian16(data[at], data[at + 1]) == BigEndian16(hi, lo) <==> data[at..at + 2] == [hi, lo])
  {
  }

  // parseDHCPOffer up to the DHCP message.
  method CheckFrame(packet: bytes) returns (ok: bool)
    ensures ok <==> FromServer(packet)
  {
    SameWord(packet, 12, 0x08, 0x00);
    if |packet| < 14 + 20 + 8 + 240 || BigEndian16(packet[12], packet[13]) != 0x0800 {
      return false;
    }
    var ipHeaderLength := HeaderLength(packet);
    if ipHeaderLength < 20 || |packet| < 14 + ipHeaderLength + 8 + 240 {
      return false;
    }
    var udp := packet[14 + ipHeaderLength..];
    SameWord(udp, 0, 0, 67);
    SameWord(udp, 2, 0, 68);
    assert udp[0..4] == udp[0..2] + udp[2..4];
    ok := BigEndian16(udp[0], udp[1]) == 67 && BigEndian16(udp[2], udp[3]) == 68;
  }

  method ParseDHCPOffer(packet: bytes, transaction: bytes) returns (r: Option<Offer>)
    requires |transaction| == 4
    ensures r.Some? <==> IsOffer(packet, transaction)
    ensures r.Some? ==>
              var dhcp := packet[22 + HeaderLength(packet)..];
              var options := Table(Items(dhcp[240..]));
              && r.value.address == dhcp[16..20]
              && r.value.server == if 54 in options && |options[54]| == 4 then options[54] else packet[26..30]
  {
    var fromServer := CheckFrame(packet);
    if !fromServer {
      return None;
    }
    var dhcp := packet[14 + HeaderLength(packet)..][8..];
    assert dhcp == packet[22 + HeaderLength(packet)..];
    if dhcp[0] != 2 || dhcp[4..8] != transaction || dhcp[236..240] != COOKIE {
      return None;
    }
    var options := ParseDHCPOptions(dhcp[240..]);
    assert 53 in options ==> (options[53] == [2] <==> |options[53]| == 1 && options[53][0] == 2);
    if 53 !in options || |options[53]| != 1 || options[53][0] != 2 {
      return None;
    }
    var server := if 54 in options && |options[54]| == 4 then options[54] else packet[26..30];
    r := Some(Offer(dhcp[16..20], server));
  }

  // What is sent is never taken for an answer.
  lemma DiscoverIsNoOffer(mac: bytes, transaction: bytes, other: bytes)
    requires |mac| == 6 && |transaction| == 4
    ensures !IsOffer(Frame(mac, transaction), other)
  {
    var dhcp := Message(mac, transaction);
    ClientPorts(Ethernet(mac), IpHeader(28 + |dhcp|), UdpHeader(8 + |dhcp|), dhcp);
  }

  lemma ClientPorts(ethernet: bytes, ip: bytes, udp: bytes, dhcp: bytes)
    requires |ethernet| == 14 && |ip| == 20 && |udp| == 8
    requires ip[0] == 0x45 && udp[1] == 68
    ensures !FromServer(ethernet + ip + udp + dhcp)
  {
    var frame := ethernet + ip + udp + dhcp;
    assert frame[14] == ip[0];
    if |frame| >= 282 {
      assert frame[14 + 20..][0..4][1] == udp[1];
    }
  }

  // ----- the frames byte by byte -----

  // The headers and the message of a DISCOVER, where they lie.
  lemma DiscoverParts(mac: bytes, transaction: bytes)
    requires |mac| == 6 && |transaction| == 4
    ensures var f, n := Frame(mac, transaction), |Message(mac, transaction)|;
      && |f| == 42 + n
      && f[..14] == Ethernet(mac) && f[14..34] == IpHeader(28 + n) && f[34..42] == UdpHeader(8 + n)
      && f[42..] == Message(mac, transaction)
  {
    var dhcp := Message(mac, transaction);
    FrameParts(Ethernet(mac), IpHeader(28 + |dhcp|), UdpHeader(8 + |dhcp|), dhcp);
  }

  // The headers: from port 68 to port 67, broadcast from no address, UDP.
  lemma HeaderBytes(mac: bytes, length: nat)
    ensures Ethernet(mac) == [0xFF, 0xFF, 0xFF, 0xFF, 0xFF, 0xFF] + mac + [0x08, 0x00]
    ensures UdpHeader(length) == [0, 68, 0, 67, length / 0x100 % 0x100, length % 0x100, 0, 0]
    ensures IpHeader(length)[..10] == [0x45, 0, length / 0x100 % 0x100, length % 0x100, 0, 0, 0, 0, 64, 17]
    ensures IpHeader(length)[12..] == [0, 0, 0, 0, 255, 255, 255, 255]
  {
    var base := IpBase(length);
    StoredKeeps(base, 10, ChecksumOf(base));
    assert base[..10] == [0x45, 0] + Word(length) + [0, 0, 0, 0, 64, 17];
    assert base[12..] == [0, 0, 0, 0, 0xFF, 0xFF, 0xFF, 0xFF];
  }

  lemma StoredKeeps(data: bytes, at: nat, c: int)
    requires at + 2 <= |data| && 0 <= c <= 0xFFFF
    ensures Stored(data, at, c)[..at] == data[..at] && Stored(data, at, c)[at + 2..] == data[at + 2..]
  {
  }

  lemma FrameParts(ethernet: bytes, ip: bytes, udp: bytes, dhcp: bytes)
    requires |ethernet| == 14 && |ip| == 20 && |udp| == 8
    ensures var f := ethernet + ip + udp + dhcp;
      f[..14] == ethernet && f[14..34] == ip && f[34..42] == udp && f[42..] == dhcp
  {
  }

  // A request with the broadcast flag, the hardware address and the cookie in
  // place, that asks for an offer.
  lemma MessageParts(mac: bytes, transaction: bytes)
    requires |mac| == 6 && |transaction| == 4
    ensures var dhcp := Message(mac, transaction);
      && |dhcp| == 260
      && dhcp[..4] == [1, 1, 6, 0] && dhcp[4..8] == transaction && dhcp[8..12] == [0, 0, 0x80, 0]
      && dhcp[28..34] == mac && dhcp[236..240] == [99, 130, 83, 99]
      && dhcp[240..] == [53, 1, 1, 61, 7, 1] + mac + [55, 5, 1, 3, 6, 51, 54, 255]
  {
  }

  // An OFFER as a server sends it: any frame header, an IP header of the length
  // it announces, ports 67 to 68, a reply with the transaction, the address
  // offered, the cookie and the options, and whatever follows END.
  function OfferMessage(gap: bytes, transaction: bytes, before: bytes, address: bytes, after: bytes, items: seq<Item>, rest: bytes): bytes
    requires WellFormed(items)
  {
    [2] + gap + transaction + before + address + after + [99, 130, 83, 99] + (Wire(items) + ([END] + rest))
  }

  lemma OfferMessageParts(gap: bytes, transaction: bytes, before: bytes, address: bytes, after: bytes, items: seq<Item>, rest: bytes)
    requires |gap| == 3 && |transaction| == 4 && |before| == 8 && |address| == 4 && |after| == 216 && WellFormed(items)
    ensures var dhcp := OfferMessage(gap, transaction, before, address, after, items, rest);
      && |dhcp| >= 241
      && dhcp[0] == 2 && dhcp[4..8] == transaction && dhcp[16..20] == address && dhcp[236..240] == [99, 130, 83, 99]
      && Items(dhcp[240..]) == items
  {
    var dhcp := OfferMessage(gap, transaction, before, address, after, items, rest);
    assert dhcp[240..] == Wire(items) + ([END] + rest);
    SplitIsUnique(items, [END] + rest);
  }

  lemma OfferParts(ethernet: bytes, ip: bytes, udp: bytes, dhcp: bytes)
    requires |ethernet| == 12 && |ip| >= 20 && |udp| == 4
    ensures var packet := ethernet + [0x08, 0x00] + ip + ([0, 67, 0, 68] + udp) + dhcp;
      && packet[12..14] == [0x08, 0x00] && packet[14] == ip[0] && packet[26..30] == ip[12..16]
      && packet[14 + |ip|..][0..4] == [0, 67, 0, 68] && packet[22 + |ip|..] == dhcp
  {
    var packet := ethernet + [0x08, 0x00] + ip + ([0, 67, 0, 68] + udp) + dhcp;
    assert packet[14..14 + |ip|] == ip;
    assert packet[26..30] == packet[14..14 + |ip|][12..16];
    assert packet[14 + |ip|..] == [0, 67, 0, 68] + (udp + dhcp);
  }

  // Such a frame is accepted, and both results are read from where they belong.
  lemma OfferIsAccepted(ethernet: bytes, ip: bytes, udp: bytes, dhcp: bytes, transaction: bytes, address: bytes, items: seq<Item>)
    requires |ethernet| == 12 && |transaction| == 4 && |udp| == 4
    requires 20 <= |ip| == (ip[0] as int % 16) * 4
    requires |dhcp| >= 241 && dhcp[0] == 2 && dhcp[4..8] == transaction && dhcp[16..20] == address
    requires dhcp[236..240] == [99, 130, 83, 99]
    requires Items(dhcp[240..]) == items && 53 in Table(items) && Table(items)[53] == [2]
    ensures var packet := ethernet + [0x08, 0x00] + ip + ([0, 67, 0, 68] + udp) + dhcp;
      && IsOffer(packet, transaction)
      && packet[22 + HeaderLength(packet)..] == dhcp
      && packet[26..30] == ip[12..16]
  {
    OfferParts(ethernet, ip, udp, dhcp);
  }
}
