/** The slice parsers for Ethernet, IPv4, TCP and UDP, and the IPv4 dispatch built on them. */
module Headers {
  import opened Bytes

  datatype EtherType = Ipv4 | Arp | Ipv6 | Other(value: nat)

  function ToEtherType(val: nat): EtherType {
    if val == 0x0800 then Ipv4
    else if val == 0x0806 then Arp
    else if val == 0x86DD then Ipv6
    else Other(val)
  }

  const ETHERNET_HEADER_LEN: nat := 14
  const IPV4_HEADER_MIN_LEN: nat := 20
  const IPV6_HEADER_LEN: nat := 40
  const TCP_HEADER_MIN_LEN: nat := 20
  const UDP_HEADER_LEN: nat := 8

  datatype EthernetFrame = EthernetFrame(buffer: seq<byte>) {
    static function Parse(buffer: seq<byte>): Result<(EthernetFrame, seq<byte>)> {
      if |buffer| < ETHERNET_HEADER_LEN then Err(BufferTooShort)
      else Ok((EthernetFrame(buffer[..ETHERNET_HEADER_LEN]), buffer[ETHERNET_HEADER_LEN..]))
    }

    function EtherType(): EtherType
      requires |buffer| == ETHERNET_HEADER_LEN
    {
      ToEtherType(U16(buffer[12], buffer[13]))
    }
  }

  datatype Ipv4Header = Ipv4Header(buffer: seq<byte>) {
    static function Parse(buffer: seq<byte>): Result<(Ipv4Header, seq<byte>)> {
      if |buffer| < IPV4_HEADER_MIN_LEN then Err(BufferTooShort)
      else
        var headerLen := buffer[0] % 16 * 4;
        if |buffer| < headerLen || headerLen < IPV4_HEADER_MIN_LEN then Err(InvalidFormat)
        else Ok((Ipv4Header(buffer[..headerLen]), buffer[headerLen..]))
    }

    function Protocol(): byte
      requires |buffer| >= IPV4_HEADER_MIN_LEN
    {
      buffer[9]
    }

    function Source(): seq<byte>
      requires |buffer| >= IPV4_HEADER_MIN_LEN
    {
      buffer[12..16]
    }

    function Destination(): seq<byte>
      requires |buffer| >= IPV4_HEADER_MIN_LEN
    {
      buffer[16..20]
    }
  }

  datatype Ipv6Header = Ipv6Header(buffer: seq<byte>) {
    static function Parse(buffer: seq<byte>): Result<(Ipv6Header, seq<byte>)> {
      if |buffer| < IPV6_HEADER_LEN then Err(BufferTooShort)
      else Ok((Ipv6Header(buffer[..IPV6_HEADER_LEN]), buffer[IPV6_HEADER_LEN..]))
    }

    function NextHeader(): byte
      requires |buffer| == IPV6_HEADER_LEN
    {
      buffer[6]
    }

    function Source(): seq<byte>
      requires |buffer| == IPV6_HEADER_LEN
    {
      buffer[8..24]
    }

    function Destination(): seq<byte>
      requires |buffer| == IPV6_HEADER_LEN
    {
      buffer[24..40]
    }
  }

  datatype TcpHeader = TcpHeader(buffer: seq<byte>) {
    static function Parse(buffer: seq<byte>): Result<(TcpHeader, seq<byte>)> {
      if |buffer| < TCP_HEADER_MIN_LEN then Err(BufferTooShort)
      else
        var headerLen := buffer[12] / 16 * 4;
        if |buffer| < headerLen || headerLen < TCP_HEADER_MIN_LEN then Err(InvalidFormat)
        else Ok((TcpHeader(buffer[..headerLen]), buffer[headerLen..]))
    }

    function SourcePort(): nat
      requires |buffer| >= TCP_HEADER_MIN_LEN
    {
      U16(buffer[0], buffer[1])
    }

    function DestinationPort(): nat
      requires |buffer| >= TCP_HEADER_MIN_LEN
    {
      U16(buffer[2], buffer[3])
    }
  }

  datatype UdpHeader = UdpHeader(buffer: seq<byte>) {
    static function Parse(buffer: seq<byte>): Result<(UdpHeader, seq<byte>)> {
      if |buffer| < UDP_HEADER_LEN then Err(BufferTooShort)
      else Ok((UdpHeader(buffer[..UDP_HEADER_LEN]), buffer[UDP_HEADER_LEN..]))
    }

    function SourcePort(): nat
      requires |buffer| == UDP_HEADER_LEN
    {
      U16(buffer[0], buffer[1])
    }

    function DestinationPort(): nat
      requires |buffer| == UDP_HEADER_LEN
    {
      U16(buffer[2], buffer[3])
    }
  }

  /** Where process_packet takes a frame. */
  datatype Route =
    | Tcp(srcIp: seq<byte>, srcPort: nat, dstIp: seq<byte>, dstPort: nat, payload: seq<byte>)
    | Udp(srcIp: seq<byte>, srcPort: nat, dstIp: seq<byte>, dstPort: nat, payload: seq<byte>)
    | Icmp(payload: seq<byte>)
    | NotIpv4(etherType: EtherType, payload: seq<byte>)
    | Ignored

  function RouteTcp(src: seq<byte>, dst: seq<byte>, segment: seq<byte>): Route {
    match TcpHeader.Parse(segment)
    case Err(_) => Ignored
    case Ok((tcp, data)) => Tcp(src, tcp.SourcePort(), dst, tcp.DestinationPort(), data)
  }

  function RouteUdp(src: seq<byte>, dst: seq<byte>, datagram: seq<byte>): Route {
    match UdpHeader.Parse(datagram)
    case Err(_) => Ignored
    case Ok((udp, data)) => Udp(src, udp.SourcePort(), dst, udp.DestinationPort(), data)
  }

  function RouteIpv4(packet: seq<byte>): Route {
    match Ipv4Header.Parse(packet)
    case Err(_) => Ignored
    case Ok((header, payload)) =>
      if header.Protocol() == 6 then RouteTcp(header.Source(), header.Destination(), payload)
      else if header.Protocol() == 17 then RouteUdp(header.Source(), header.Destination(), payload)
      else if header.Protocol() == 1 then Icmp(payload)
      else Ignored
  }

  /** The dispatch of process_packet, down to the transport header. */
  function RouteFrame(frame: seq<byte>): Route {
    match EthernetFrame.Parse(frame)
    case Err(_) => Ignored
    case Ok((eth, packet)) =>
      if eth.EtherType() == Ipv4 then RouteIpv4(packet) else NotIpv4(eth.EtherType(), packet)
  }

  /** TCP and UDP over IPv6, which process_packet prints but does not feed to the tracker. */
  function RouteIpv6(packet: seq<byte>): Route {
    match Ipv6Header.Parse(packet)
    case Err(_) => Ignored
    case Ok((header, payload)) =>
      if header.NextHeader() == 6 then RouteTcp(header.Source(), header.Destination(), payload)
      else if header.NextHeader() == 17 then RouteUdp(header.Source(), header.Destination(), payload)
      else Ignored
  }

  /** The ports of a routed TCP or UDP segment, in frame positions. */
  lemma RoutedPorts(frame: seq<byte>)
    requires var r := RouteFrame(frame); r.Tcp? || r.Udp?
    ensures
      var r := RouteFrame(frame);
      |frame| >= 34 && U16(frame[12], frame[13]) == 0x0800 && frame[23] == (if r.Tcp? then 6 else 17) &&
      var t := 14 + frame[14] % 16 * 4;
      34 <= t && t + 8 <= |frame| &&
      r.srcPort == U16(frame[t], frame[t + 1]) && r.dstPort == U16(frame[t + 2], frame[t + 3])
  {
    var packet := frame[14..];
    assert packet[0] == frame[14] && packet[9] == frame[23];
    var headerLen := packet[0] % 16 * 4;
    var payload := packet[headerLen..];
    var t := 14 + headerLen;
    assert payload[0] == frame[t] && payload[1] == frame[t + 1];
    assert payload[2] == frame[t + 2] && payload[3] == frame[t + 3];
  }

  /** The addresses and the payload of a routed TCP segment, in frame positions. */
  lemma RoutedTcpFields(frame: seq<byte>)
    requires RouteFrame(frame).Tcp?
    ensures
      var r := RouteFrame(frame);
      |frame| >= 34 && r.srcIp == frame[26..30] && r.dstIp == frame[30..34] &&
      var t := 14 + frame[14] % 16 * 4;
      t + 20 <= |frame| &&
      var data := t + frame[t + 12] / 16 * 4;
      t + 20 <= data <= |frame| && r.payload == frame[data..]
  {
    var packet := frame[14..];
    var headerLen := packet[0] % 16 * 4;
    assert packet[..headerLen][12..16] == frame[26..30] && packet[..headerLen][16..20] == frame[30..34];
    var segment := packet[headerLen..];
    var t := 14 + headerLen;
    assert segment[12] == frame[t + 12];
    assert segment[frame[t + 12] / 16 * 4..] == frame[t + frame[t + 12] / 16 * 4..];
  }

  /** Where the IPv4 packet ends in the frame by its own total length, which Ipv4Header does not read. */
  function TotalEnd(frame: seq<byte>): nat
    requires |frame| >= 34
  {
    14 + U16(frame[16], frame[17])
  }

  /** Where the TCP payload starts in the frame. */
  function PayloadStart(frame: seq<byte>): nat
    requires RouteFrame(frame).Tcp?
  {
    RoutedTcpFields(frame);
    var t := 14 + frame[14] % 16 * 4;
    t + frame[t + 12] / 16 * 4
  }

  /** The payload of a TCP segment reaches to the end of the frame. It is what the segment carries by the packet's total
      length exactly when the packet ends where the frame does: padding behind it is taken for payload. */
  lemma PayloadIsTheSegmentsIff(frame: seq<byte>)
    requires RouteFrame(frame).Tcp?
    ensures |frame| >= 34 && PayloadStart(frame) <= |frame|
    ensures
      var start, end := PayloadStart(frame), TotalEnd(frame);
      (start <= end <= |frame| && RouteFrame(frame).payload == frame[start..end]) <==> end == |frame|
  {
    RoutedTcpFields(frame);
    hide RouteFrame;
    assert frame[PayloadStart(frame)..] == frame[PayloadStart(frame)..|frame|];
  }

  /** A bare ACK, padded to the 60 bytes of the shortest Ethernet frame. */
  function PaddedAck(): seq<byte> {
    seq(60, i => if i == 12 then 0x08 else if i == 14 then 0x45 else if i == 17 then 40 else if i == 23 then 6
                 else if i == 46 then 0x50 else if i == 47 then 0x10 else 0)
  }

  /** Its packet ends after 54 bytes, without payload, and yet six bytes of padding are routed as payload. */
  lemma PaddedAckHasPayload()
    ensures |PaddedAck()| == 60 && TotalEnd(PaddedAck()) == 54
    ensures RouteFrame(PaddedAck()).Tcp?
    ensures PayloadStart(PaddedAck()) == 54 && RouteFrame(PaddedAck()).payload == [0, 0, 0, 0, 0, 0]
  {
    PaddedAckIsRouted();
    var f := PaddedAck();
    RoutedTcpFields(f);
    hide RouteFrame;
    assert f[54..] == [0, 0, 0, 0, 0, 0];
  }

  lemma PaddedAckIsRouted()
    ensures RouteFrame(PaddedAck()).Tcp?
  {
    var packet := PaddedAck()[14..];
    assert packet[0] == 0x45 && packet[9] == 6;
    assert packet[20..][12] == 0x50;
  }

  /** The addresses and the payload of a routed UDP datagram, in frame positions. */
  lemma RoutedUdpFields(frame: seq<byte>)
    requires RouteFrame(frame).Udp?
    ensures
      var r := RouteFrame(frame);
      |frame| >= 34 && r.srcIp == frame[26..30] && r.dstIp == frame[30..34] &&
      var t := 14 + frame[14] % 16 * 4;
      t + 8 <= |frame| && r.payload == frame[t + 8..]
  {
    var packet := frame[14..];
    var headerLen := packet[0] % 16 * 4;
    assert packet[..headerLen][12..16] == frame[26..30] && packet[..headerLen][16..20] == frame[30..34];
    assert packet[headerLen..][8..] == frame[14 + headerLen + 8..];
  }

  /** What a TCP segment or UDP datagram over IPv6 carries, in packet positions. */
  lemma RoutedIpv6Fields(packet: seq<byte>)
    requires var r := RouteIpv6(packet); r.Tcp? || r.Udp?
    ensures
      var r := RouteIpv6(packet);
      && |packet| >= 48 && packet[6] == (if r.Tcp? then 6 else 17)
      && r.srcIp == packet[8..24] && r.dstIp == packet[24..40]
      && r.srcPort == U16(packet[40], packet[41]) && r.dstPort == U16(packet[42], packet[43])
      && (r.Udp? ==> r.payload == packet[48..])
      && (r.Tcp? ==>
            |packet| >= 60 &&
            var data := 40 + packet[52] / 16 * 4;
            60 <= data <= |packet| && r.payload == packet[data..])
  {
    var segment := packet[40..];
    assert packet[..40][8..24] == packet[8..24] && packet[..40][24..40] == packet[24..40];
    assert segment[0] == packet[40] && segment[1] == packet[41] && segment[2] == packet[42] && segment[3] == packet[43];
    if RouteIpv6(packet).Tcp? {
      assert segment[12] == packet[52];
      assert segment[packet[52] / 16 * 4..] == packet[40 + packet[52] / 16 * 4..];
    } else {
      assert segment[8..] == packet[48..];
    }
  }
}
