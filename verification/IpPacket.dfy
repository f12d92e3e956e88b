/** IP packets as the ESP layer reads them: addresses, ports, and the length trimmed to what the header states. */
module IpPacket {
  import opened Bytes

  const IPPROTO_TCP: byte := 6
  const IPPROTO_UDP: byte := 17
  const IPV4_HEADER: nat := 20
  const IPV6_HEADER: nat := 40

  datatype Host = Host(address: seq<byte>, port: nat)

  datatype Ip = Ip(version: nat, src: Host, dst: Host, nextHeader: byte, packet: seq<byte>, payload: seq<byte>)

  /** The ports of a UDP or TCP header, 0 for other protocols, nothing if the header is cut short. */
  function ParseTransportHeader(payload: seq<byte>, proto: byte): Option<(nat, nat)> {
    if proto == IPPROTO_UDP then
      if |payload| < 8 then None else Some((FromU16(payload[0..2]), FromU16(payload[2..4])))
    else if proto == IPPROTO_TCP then
      if |payload| < 20 then None else Some((FromU16(payload[0..2]), FromU16(payload[2..4])))
    else Some((0, 0))
  }

  function Create(packet: seq<byte>): Option<Ip> {
    if |packet| < 1 then None else
    var version := packet[0] / 16;
    if version == 4 then
      if |packet| < IPV4_HEADER then None else
      // extra padding for traffic flow confidentiality is cut off
      var trimmed := packet[..Min(|packet|, FromU16(packet[2..4]))];
      var payload := Skip(trimmed, (packet[0] % 16) * 4);
      match ParseTransportHeader(payload, packet[9])
      case None => None
      case Some((sport, dport)) =>
        Some(Ip(4, Host(packet[12..16], sport), Host(packet[16..20], dport), packet[9], trimmed, payload))
    else if version == 6 then
      if |packet| < IPV6_HEADER then None else
      var trimmed := packet[..Min(|packet|, IPV6_HEADER + FromU16(packet[4..6]))];
      var payload := Skip(trimmed, IPV6_HEADER);
      match ParseTransportHeader(payload, packet[6])
      case None => None
      case Some((sport, dport)) =>
        Some(Ip(6, Host(packet[8..24], sport), Host(packet[24..40], dport), packet[6], trimmed, payload))
    else None
  }

  /** The length an IPv4 header states covers that header; for IPv6 it always does. */
  predicate LengthCoversHeader(packet: seq<byte>) {
    |packet| >= IPV4_HEADER && (packet[0] / 16 == 4 ==> FromU16(packet[2..4]) >= IPV4_HEADER)
  }

  /**
   * An accepted packet is read again from its own encoding exactly when its
   * stated length covers its header.
   */
  lemma ReparseIff(packet: seq<byte>)
    requires Create(packet).Some?
    ensures var ip := Create(packet).value;
            && ip.packet <= packet
            && (Create(ip.packet) == Some(ip) <==> LengthCoversHeader(packet))
            && (!LengthCoversHeader(packet) ==> Create(ip.packet) == None)
  {
    hide FromU16;
    var ip := Create(packet).value;
    var e := ip.packet;
    if LengthCoversHeader(packet) {
      if ip.version == 4 {
        assert |e| >= IPV4_HEADER && e[2..4] == packet[2..4] && e[12..16] == packet[12..16] && e[16..20] == packet[16..20];
        assert e[..|e|] == e;
      } else {
        assert |e| >= IPV6_HEADER && e[4..6] == packet[4..6] && e[8..24] == packet[8..24] && e[24..40] == packet[24..40];
        assert e[..|e|] == e;
      }
    }
  }

  /** A header of version 4 that states a length of 0: read once, with nothing left to read again. */
  lemma NoLengthWitness()
    ensures var packet: seq<byte> := [0x45] + Fill(0, 19);
            && Create(packet).Some? && !LengthCoversHeader(packet)
            && Create(packet).value.packet == [] && Create(Create(packet).value.packet) == None
  {
    var packet: seq<byte> := [0x45] + Fill(0, 19);
    assert packet[2..4] == [0, 0] && FromU16(packet[2..4]) == 0;
    assert packet[9] == 0 && packet[0] == 0x45;
    ReparseIff(packet);
  }

  /** What the ports of a payload are, by the protocol in front of it. */
  predicate PortsOf(proto: byte, payload: seq<byte>, sport: nat, dport: nat) {
    if proto == 17 || proto == 6 then
      && |payload| >= (if proto == 17 then 8 else 20)
      && sport == (payload[0] as int) * 256 + payload[1] && dport == (payload[2] as int) * 256 + payload[3]
    else sport == 0 && dport == 0
  }

  /** An IPv4 header with options, field by field. */
  function Ipv4Bytes(words: nat, tos: byte, length: nat, middle: seq<byte>, proto: byte, sum: seq<byte>, src: seq<byte>, dst: seq<byte>,
                     options: seq<byte>): seq<byte>
    requires 5 <= words < 16 && |middle| == 5 && |sum| == 2 && |src| == |dst| == 4 && |options| == 4 * words - 20
  {
    [0x40 + words, tos] + U16(length) + middle + [proto] + sum + src + dst + options
  }

  /** Reading a packet of that header, a payload and anything behind it finds its fields. */
  lemma ReadsIpv4(words: nat, tos: byte, middle: seq<byte>, proto: byte, sum: seq<byte>, src: seq<byte>, dst: seq<byte>,
                  options: seq<byte>, payload: seq<byte>, extra: seq<byte>, sport: nat, dport: nat)
    requires 5 <= words < 16 && |middle| == 5 && |sum| == 2 && |src| == |dst| == 4 && |options| == 4 * words - 20
    requires 4 * words + |payload| < 65536 && PortsOf(proto, payload, sport, dport)
    ensures var packet := Ipv4Bytes(words, tos, 4 * words + |payload|, middle, proto, sum, src, dst, options) + payload;
            Create(packet + extra) == Some(Ip(4, Host(src, sport), Host(dst, dport), proto, packet, payload))
  {
    hide U16, FromU16, Ipv4Bytes, ParseTransportHeader, Create, Skip, PortsOf;
    var n := 4 * words + |payload|;
    var header := Ipv4Bytes(words, tos, n, middle, proto, sum, src, dst, options);
    Ipv4Fields(words, tos, n, middle, proto, sum, src, dst, options);
    var packet := header + payload;
    var all := packet + extra;
    U16RoundTrip(n);
    FrontOf(header, payload + extra);
    assert all == header + (payload + extra);
    PortsRead(proto, payload, sport, dport);
    Trimmed(header, payload, extra);
    CreatesIpv4(all, n, 4 * words, packet, payload, sport, dport);
  }

  lemma Trimmed(header: seq<byte>, payload: seq<byte>, extra: seq<byte>)
    ensures var packet := header + payload;
            (packet + extra)[..|packet|] == packet && Skip(packet, |header|) == payload
  {
  }

  /** An IPv4 packet whose fields are known. */
  lemma CreatesIpv4(all: seq<byte>, n: nat, start: nat, packet: seq<byte>, payload: seq<byte>, sport: nat, dport: nat)
    requires 20 <= start <= n <= |all| && all[0] / 16 == 4 && (all[0] % 16) * 4 == start && FromU16(all[2..4]) == n
    requires all[..n] == packet && Skip(packet, start) == payload && ParseTransportHeader(payload, all[9]) == Some((sport, dport))
    ensures Create(all) == Some(Ip(4, Host(all[12..16], sport), Host(all[16..20], dport), all[9], packet, payload))
  {
    hide FromU16, ParseTransportHeader;
  }

  lemma FrontOf(header: seq<byte>, rest: seq<byte>)
    requires |header| >= 20
    ensures var all := header + rest;
            && all[0] == header[0] && all[2..4] == header[2..4] && all[9] == header[9]
            && all[12..16] == header[12..16] && all[16..20] == header[16..20]
  {
  }

  lemma Ipv4Fields(words: nat, tos: byte, length: nat, middle: seq<byte>, proto: byte, sum: seq<byte>, src: seq<byte>, dst: seq<byte>,
                   options: seq<byte>)
    requires 5 <= words < 16 && |middle| == 5 && |sum| == 2 && |src| == |dst| == 4 && |options| == 4 * words - 20
    ensures var h := Ipv4Bytes(words, tos, length, middle, proto, sum, src, dst, options);
            && |h| == 4 * words && h[0] / 16 == 4 && h[0] % 16 == words && h[2..4] == U16(length) && h[9] == proto
            && h[12..16] == src && h[16..20] == dst
  {
    hide U16;
  }

  lemma PortsRead(proto: byte, payload: seq<byte>, sport: nat, dport: nat)
    requires PortsOf(proto, payload, sport, dport)
    ensures ParseTransportHeader(payload, proto) == Some((sport, dport))
  {
  }

  /** An IPv6 header, field by field. */
  function Ipv6Bytes(flow: seq<byte>, length: nat, next: byte, hops: byte, src: seq<byte>, dst: seq<byte>): seq<byte>
    requires |flow| == 4 && |src| == |dst| == 16
  {
    flow + U16(length) + [next, hops] + src + dst
  }

  lemma ReadsIpv6(flow: seq<byte>, next: byte, hops: byte, src: seq<byte>, dst: seq<byte>, payload: seq<byte>, extra: seq<byte>,
                  sport: nat, dport: nat)
    requires |flow| == 4 && flow[0] / 16 == 6 && |src| == |dst| == 16 && |payload| < 65536 && PortsOf(next, payload, sport, dport)
    ensures var packet := Ipv6Bytes(flow, |payload|, next, hops, src, dst) + payload;
            Create(packet + extra) == Some(Ip(6, Host(src, sport), Host(dst, dport), next, packet, payload))
  {
    hide U16, FromU16;
    var packet := Ipv6Bytes(flow, |payload|, next, hops, src, dst) + payload;
    var all := packet + extra;
    U16RoundTrip(|payload|);
    assert all[4..6] == U16(|payload|) && all[0] == flow[0] && all[6] == next;
    assert all[8..24] == src && all[24..40] == dst && all[..|packet|] == packet;
    assert Skip(packet, IPV6_HEADER) == payload;
    PortsRead(next, payload, sport, dport);
    hide ParseTransportHeader;
  }
}
