/** Building IP packets around a payload, and that those of version 4 read back as what they were built from. */
module IpBuild {
  import opened Bytes
  import opened IpPacket

  /** The internet checksum of a header, and of a payload together with its pseudo header. */
  type Checksum = seq<byte> -> seq<byte>

  ghost predicate ChecksumOk(sum: Checksum) {
    forall data :: |sum(data)| == 2
  }

  /** How long the transport header is, and where its checksum is. */
  function TransportHeader(proto: byte): Option<(nat, nat)> {
    if proto == IPPROTO_UDP then Some((8, 6)) else if proto == IPPROTO_TCP then Some((20, 16)) else None
  }

  /** Ports of 0 leave the payload's own in place. */
  function PortField(port: nat, field: seq<byte>): (r: seq<byte>)
    requires |field| == 2
    ensures |r| == 2
  {
    if port != 0 then U16(port) else field
  }

  function WithPorts(sport: nat, dport: nat, payload: seq<byte>): (r: seq<byte>)
    requires |payload| >= 4
    ensures |r| == |payload|
  {
    PortField(sport, payload[0..2]) + PortField(dport, payload[2..4]) + payload[4..]
  }

  function Store(s: seq<byte>, at: nat, field: seq<byte>): (r: seq<byte>)
    requires at + |field| <= |s|
    ensures |r| == |s|
  {
    s[..at] + field + s[at + |field|..]
  }

  /** The payload with ports and checksum filled in; untouched if there is no whole transport header. */
  function Fixed(sport: nat, dport: nat, proto: byte, payload: seq<byte>, sum: Checksum): (r: seq<byte>)
    requires ChecksumOk(sum)
    ensures |r| == |payload|
  {
    match TransportHeader(proto)
    case None => payload
    case Some((len, at)) =>
      if |payload| < len then payload else
      var ported := WithPorts(sport, dport, payload);
      Store(ported, at, sum(Store(ported, at, [0, 0])))
  }

  /** The 20 byte header in front of a payload of n bytes. */
  function Ipv4Header(src: Host, dst: Host, proto: byte, n: nat, checksum: seq<byte>): (h: seq<byte>)
    requires |src.address| == |dst.address| == 4 && |checksum| == 2
    ensures |h| == IPV4_HEADER
  {
    [0x45, 0] + U16(IPV4_HEADER + n) + [0, 0, 0, 0, 0x80, proto] + checksum + src.address + dst.address
  }

  function Built(src: Host, dst: Host, proto: byte, data: seq<byte>, sum: Checksum): (packet: seq<byte>)
    requires |src.address| == |dst.address| == 4 && ChecksumOk(sum)
    ensures |packet| == IPV4_HEADER + |data|
  {
    var checksum := sum(Ipv4Header(src, dst, proto, |data|, [0, 0]));
    Ipv4Header(src, dst, proto, |data|, checksum) + Fixed(src.port, dst.port, proto, data, sum)
  }

  /** The port a packet built for a host with the given port has. */
  function PortOf(port: nat, proto: byte, field: seq<byte>): nat
    requires |field| == 2
  {
    if TransportHeader(proto).None? then 0 else if port != 0 then port else FromU16(field)
  }

  lemma PortFieldBack(port: nat, field: seq<byte>)
    requires port < 65536 && |field| == 2
    ensures FromU16(PortField(port, field)) == if port != 0 then port else FromU16(field)
  {
    U16RoundTrip(port);
  }

  /** The ports filled in are the ports read. */
  lemma FixedPorts(sport: nat, dport: nat, proto: byte, payload: seq<byte>, sum: Checksum)
    requires ChecksumOk(sum) && sport < 65536 && dport < 65536
    ensures var read := ParseTransportHeader(Fixed(sport, dport, proto, payload, sum), proto);
            match TransportHeader(proto)
            case None => read == Some((0, 0))
            case Some((len, _)) =>
              if |payload| < len then read == None
              else read == Some((PortOf(sport, proto, payload[0..2]), PortOf(dport, proto, payload[2..4])))
  {
    hide FromU16, U16, PortField;
    var fixed := Fixed(sport, dport, proto, payload, sum);
    if TransportHeader(proto).Some? && |payload| >= TransportHeader(proto).value.0 {
      PortFieldBack(sport, payload[0..2]);
      PortFieldBack(dport, payload[2..4]);
      var ported := WithPorts(sport, dport, payload);
      assert fixed[0..2] == ported[0..2] == PortField(sport, payload[0..2]);
      assert fixed[2..4] == ported[2..4] == PortField(dport, payload[2..4]);
    }
  }

  /** Beyond ports and checksum the payload is the data. */
  lemma FixedKeepsData(sport: nat, dport: nat, proto: byte, payload: seq<byte>, sum: Checksum, i: nat)
    requires ChecksumOk(sum) && 4 <= i < |payload|
    requires match TransportHeader(proto) case None => true case Some((_, at)) => !(at <= i < at + 2)
    ensures Fixed(sport, dport, proto, payload, sum)[i] == payload[i]
  {
  }

  lemma HeaderFields(src: Host, dst: Host, proto: byte, n: nat, checksum: seq<byte>)
    requires |src.address| == |dst.address| == 4 && |checksum| == 2
    ensures var h := Ipv4Header(src, dst, proto, n, checksum);
            && h[0] == 0x45 && h[2..4] == U16(IPV4_HEADER + n) && h[9] == proto
            && h[12..16] == src.address && h[16..20] == dst.address
  {
    hide U16;
  }

  /**
   * A packet built reads back with the hosts, protocol and payload it was built
   * from, and nothing trimmed, unless its transport header is cut short; a port
   * of 0 stands for the one in the payload.
   */
  lemma CreateBuilt(src: Host, dst: Host, proto: byte, data: seq<byte>, sum: Checksum)
    requires |src.address| == |dst.address| == 4 && ChecksumOk(sum)
    requires src.port < 65536 && dst.port < 65536 && |data| <= 65535 - IPV4_HEADER
    ensures var short := match TransportHeader(proto) case None => false case Some((len, _)) => |data| < len;
            var packet := Built(src, dst, proto, data, sum);
            if short then Create(packet) == None
            else
              var (sfield, dfield) := if |data| >= 4 then (data[0..2], data[2..4]) else ([0, 0], [0, 0]);
              Create(packet) == Some(Ip(4, Host(src.address, PortOf(src.port, proto, sfield)),
                                           Host(dst.address, PortOf(dst.port, proto, dfield)),
                                        proto, packet, Fixed(src.port, dst.port, proto, data, sum)))
  {
    hide FromU16, U16, Ipv4Header, Fixed, ParseTransportHeader, ChecksumOk;
    var checksum := sum(Ipv4Header(src, dst, proto, |data|, [0, 0]));
    SumSize(sum, Ipv4Header(src, dst, proto, |data|, [0, 0]));
    var h := Ipv4Header(src, dst, proto, |data|, checksum);
    var fixed := Fixed(src.port, dst.port, proto, data, sum);
    var packet := Built(src, dst, proto, data, sum);
    HeaderFields(src, dst, proto, |data|, checksum);
    FixedPorts(src.port, dst.port, proto, data, sum);
    U16RoundTrip(|packet|);
    assert packet == h + fixed;
    assert packet[2..4] == h[2..4] && packet[12..16] == h[12..16] && packet[16..20] == h[16..20];
    assert packet[0] == h[0] && packet[9] == h[9];
    assert packet[..|packet|] == packet;
    assert Skip(packet, IPV4_HEADER) == fixed;
  }

  lemma SumSize(sum: Checksum, data: seq<byte>)
    requires ChecksumOk(sum)
    ensures |sum(data)| == 2
  {
  }

  /** The packet reads back whole exactly when its length fits the 16-bit length field. */
  lemma WholeIffFits(src: Host, dst: Host, proto: byte, data: seq<byte>, sum: Checksum)
    requires |src.address| == |dst.address| == 4 && ChecksumOk(sum) && Create(Built(src, dst, proto, data, sum)).Some?
    ensures Create(Built(src, dst, proto, data, sum)).value.packet == Built(src, dst, proto, data, sum) <==>
            |data| <= 65535 - IPV4_HEADER
  {
    hide FromU16, U16, Ipv4Header, Fixed, ChecksumOk, ParseTransportHeader;
    var checksum := sum(Ipv4Header(src, dst, proto, |data|, [0, 0]));
    SumSize(sum, Ipv4Header(src, dst, proto, |data|, [0, 0]));
    var h := Ipv4Header(src, dst, proto, |data|, checksum);
    var packet := Built(src, dst, proto, data, sum);
    HeaderFields(src, dst, proto, |data|, checksum);
    U16RoundTrip(|packet|);
    assert packet == h + Fixed(src.port, dst.port, proto, data, sum);
    assert packet[2..4] == h[2..4] && packet[0] == h[0] && packet[9] == h[9];
    assert packet[..|packet|] == packet;
    assert |packet| % 65536 < 65536;
  }

  /** Fills in ports and checksum of the payload behind the header, in place. */
  method FixTransportHeader(sport: nat, dport: nat, proto: byte, packet: array<byte>, start: nat, sum: Checksum)
    requires ChecksumOk(sum) && start <= packet.Length
    modifies packet
    ensures packet[..start] == old(packet[..start])
    ensures packet[start..] == Fixed(sport, dport, proto, old(packet[start..]), sum)
  {
    hide U16, Store, WithPorts, ChecksumOk;
    ghost var payload := packet[start..];
    var header := TransportHeader(proto);
    if header.None? || packet.Length - start < header.value.0 {
      return;
    }
    var at := header.value.1;
    if sport != 0 {
      Put(packet, start, 0, U16(sport));
    }
    if dport != 0 {
      Put(packet, start, 2, U16(dport));
    }
    PortsAsStores(sport, dport, payload);
    Put(packet, start, at, [0, 0]);
    var checksum := sum(packet[start..]);
    SumSize(sum, packet[start..]);
    Put(packet, start, at, checksum);
    StoreTwice(WithPorts(sport, dport, payload), at, [0, 0], checksum);
  }

  method Put(packet: array<byte>, start: nat, at: nat, field: seq<byte>)
    requires start + at + |field| <= packet.Length
    modifies packet
    ensures packet[..start] == old(packet[..start])
    ensures packet[start..] == Store(old(packet[start..]), at, field)
  {
    ghost var was := packet[..];
    CopyInto(packet, start + at, field);
    assert packet[start..] == Store(was[start..], at, field);
    assert packet[..start] == was[..start];
  }

  lemma PortsAsStores(sport: nat, dport: nat, payload: seq<byte>)
    requires |payload| >= 4
    ensures |U16(sport)| == |U16(dport)| == 2
    ensures var first := if sport != 0 then Store(payload, 0, U16(sport)) else payload;
            WithPorts(sport, dport, payload) == if dport != 0 then Store(first, 2, U16(dport)) else first
  {
    hide U16;
  }

  lemma StoreTwice(s: seq<byte>, at: nat, a: seq<byte>, b: seq<byte>)
    requires |a| == |b| && at + |a| <= |s|
    ensures Store(Store(s, at, a), at, b) == Store(s, at, b)
  {
  }

  /** The IPv6 header the source writes: its first word is the number 6, so the version field is 0. */
  function Ipv6Header(src: Host, dst: Host, proto: byte, n: nat): (h: seq<byte>)
    requires |src.address| == |dst.address| == 16
    ensures |h| == IPV6_HEADER
  {
    [0, 0, 0, 6] + U16(n) + [proto, 0x80] + src.address + dst.address
  }

  function Built6(src: Host, dst: Host, proto: byte, data: seq<byte>, sum: Checksum): (packet: seq<byte>)
    requires |src.address| == |dst.address| == 16 && ChecksumOk(sum)
  {
    Ipv6Header(src, dst, proto, |data|) + Fixed(src.port, dst.port, proto, data, sum)
  }

  /** No IPv6 packet that is built is accepted. */
  lemma Built6Refused(src: Host, dst: Host, proto: byte, data: seq<byte>, sum: Checksum)
    requires |src.address| == |dst.address| == 16 && ChecksumOk(sum)
    ensures Create(Built6(src, dst, proto, data, sum)) == None
  {
    hide U16, FromU16, Fixed;
    assert Built6(src, dst, proto, data, sum)[0] == 0;
  }

  /** A packet for two hosts of one family; the families are told by the length of the addresses. */
  method CreateFromData(src: Host, dst: Host, proto: byte, data: seq<byte>, sum: Checksum) returns (ip: Option<Ip>)
    requires ChecksumOk(sum)
    ensures ip == if |src.address| == |dst.address| == 4 then Create(Built(src, dst, proto, data, sum)) else None
  {
    hide U16, FromU16, Create, Fixed;
    if |src.address| != |dst.address| {
      return None;
    }
    if |src.address| == 4 {
      var header := Ipv4Header(src, dst, proto, |data|, [0, 0]);
      header := Ipv4Header(src, dst, proto, |data|, sum(header));
      var packet := Patched(header, src.port, dst.port, proto, data, sum);
      ip := Create(packet);
    } else if |src.address| == 16 {
      var packet := Patched(Ipv6Header(src, dst, proto, |data|), src.port, dst.port, proto, data, sum);
      Built6Refused(src, dst, proto, data, sum);
      ip := Create(packet);
    } else {
      ip := None;
    }
  }

  /** Header and data in one buffer, the transport header patched in place. */
  method Patched(header: seq<byte>, sport: nat, dport: nat, proto: byte, data: seq<byte>, sum: Checksum) returns (bytes: seq<byte>)
    requires ChecksumOk(sum)
    ensures bytes == header + Fixed(sport, dport, proto, data, sum)
  {
    hide Fixed, ChecksumOk;
    var packet := new byte[|header| + |data|];
    CopyInto(packet, 0, header);
    CopyInto(packet, |header|, data);
    assert packet[..|header|] == header && packet[|header|..] == data;
    FixTransportHeader(sport, dport, proto, packet, |header|, sum);
    assert packet[..] == packet[..|header|] + packet[|header|..];
    bytes := packet[..];
  }

  /** Where the transport checksum is, and that it covers the payload with the field zero. */
  lemma ChecksumPlace(sport: nat, dport: nat, proto: byte, payload: seq<byte>, sum: Checksum)
    requires ChecksumOk(sum)
    ensures var fixed := Fixed(sport, dport, proto, payload, sum);
            && (proto == 17 && |payload| >= 8 ==> fixed[6..8] == sum(fixed[..6] + [0, 0] + fixed[8..]))
            && (proto == 6 && |payload| >= 20 ==> fixed[16..18] == sum(fixed[..16] + [0, 0] + fixed[18..]))
            && ((proto != 17 && proto != 6) || |payload| < 8 || (proto == 6 && |payload| < 20) ==> fixed == payload)
  {
    hide WithPorts;
    if TransportHeader(proto).Some? && |payload| >= TransportHeader(proto).value.0 {
      var at := TransportHeader(proto).value.1;
      var ported, fixed := WithPorts(sport, dport, payload), Fixed(sport, dport, proto, payload, sum);
      SumSize(sum, Store(ported, at, [0, 0]));
      assert fixed[..at] == ported[..at] && fixed[at + 2..] == ported[at + 2..];
      assert Store(ported, at, [0, 0]) == fixed[..at] + [0, 0] + fixed[at + 2..];
    }
  }

  /** The header checksum covers the header with the field zero. */
  lemma HeaderChecksum(src: Host, dst: Host, proto: byte, data: seq<byte>, sum: Checksum)
    requires |src.address| == |dst.address| == 4 && ChecksumOk(sum)
    ensures var packet := Built(src, dst, proto, data, sum);
            packet[10..12] == sum(packet[..10] + [0, 0] + packet[12..20])
  {
    hide U16, Fixed;
    var zero := Ipv4Header(src, dst, proto, |data|, [0, 0]);
    SumSize(sum, zero);
    var packet := Built(src, dst, proto, data, sum);
    assert packet[10..12] == sum(zero);
    assert packet[..10] + [0, 0] + packet[12..20] == zero;
  }

  /** The bytes of the headers written: no options, no fragment, a time to live of 128. */
  lemma HeaderBytes(src: Host, dst: Host, proto: byte, data: seq<byte>, sum: Checksum)
    requires ChecksumOk(sum)
    ensures |src.address| == |dst.address| == 4 ==>
              var p := Built(src, dst, proto, data, sum);
              && p[..2] == [0x45, 0] && p[2..4] == U16(20 + |data|) && p[4..10] == [0, 0, 0, 0, 128, proto]
              && p[12..16] == src.address && p[16..20] == dst.address
    ensures |src.address| == |dst.address| == 16 ==>
              var p := Built6(src, dst, proto, data, sum);
              && |p| == 40 + |data| && p[..4] == [0, 0, 0, 6] && p[4..6] == U16(|data|) && p[6..8] == [proto, 128]
              && p[8..24] == src.address && p[24..40] == dst.address
  {
    hide U16, Fixed;
    if |src.address| == |dst.address| == 4 {
      var zero := Ipv4Header(src, dst, proto, |data|, [0, 0]);
      SumSize(sum, zero);
      var h := Ipv4Header(src, dst, proto, |data|, sum(zero));
      var p := Built(src, dst, proto, data, sum);
      HeaderFields(src, dst, proto, |data|, sum(zero));
      assert p[12..16] == h[12..16] && p[16..20] == h[16..20];
    }
  }
}
