/** The filter tables attached by RawSocket: what each decides for every packet, and how that compares with
    the parsers. */
module Filters {
  import opened Bytes
  import opened Bpf
  import opened Headers

  const ACCEPT: nat := 65535

  /** attach_filter_port; otherEther and otherProto are the false branches of the ethertype and protocol tests. */
  function PortTable(port: nat, otherEther: nat, otherProto: nat): Program {
    [ Insn(0x28, 0, 8, 12),
      Insn(0x15, 0, otherEther, 0x0800),
      Insn(0x30, 0, 0, 23),
      Insn(0x15, 1, 0, 6),
      Insn(0x15, 0, otherProto, 17),
      Insn(0xb1, 0, 0, 14),
      Insn(0x48, 0, 0, 14),
      Insn(0x15, 2, 0, port),
      Insn(0x48, 0, 0, 16),
      Insn(0x15, 0, 1, port),
      Insn(0x06, 0, 0, 65535),
      Insn(0x06, 0, 0, 0) ]
  }

  /** The tcp, udp and icmp tables of attach_filter_proto. */
  function ProtoTable(protocol: byte, otherEther: nat): Program {
    [ Insn(0x28, 0, 3, 12),
      Insn(0x15, 0, otherEther, 0x0800),
      Insn(0x30, 0, 0, 23),
      Insn(0x15, 0, 1, protocol),
      Insn(0x06, 0, 0, 65535),
      Insn(0x06, 0, 0, 0) ]
  }

  function PortProgram(port: nat): Program {
    PortTable(port, 8, 5)
  }

  function ProtoProgram(protocol: byte): Program {
    ProtoTable(protocol, 2)
  }

  function ArpProgram(): Program {
    [ Insn(0x28, 0, 1, 12),
      Insn(0x15, 0, 1, 0x0806),
      Insn(0x06, 0, 0, 65535),
      Insn(0x06, 0, 0, 0) ]
  }

  function Lower(c: char): char {
    if 'A' <= c <= 'Z' then c - 'A' + 'a' else c
  }

  function ToLowercase(s: string): string {
    seq(|s|, i requires 0 <= i < |s| => Lower(s[i]))
  }

  /** The table attach_filter_proto picks; None is its InvalidInput error. */
  function NamedProgram(proto: string): Option<Program> {
    var name := ToLowercase(proto);
    if name == "tcp" then Some(ProtoProgram(6))
    else if name == "udp" then Some(ProtoProgram(17))
    else if name == "icmp" then Some(ProtoProgram(1))
    else if name == "arp" then Some(ArpProgram())
    else None
  }

  lemma PortTableChecked(port: nat, otherEther: nat, otherProto: nat)
    requires otherEther <= 9 && otherProto <= 6
    ensures Checked(PortTable(port, otherEther, otherProto))
  {
  }

  lemma ProtoTableChecked(protocol: byte, otherEther: nat)
    requires otherEther <= 3
    ensures Checked(ProtoTable(protocol, otherEther))
  {
  }

  /** Every table that can be attached halts with a verdict on every packet. */
  lemma AttachedTablesHalt(port: nat, proto: string, pkt: seq<byte>)
    ensures Verdict(PortProgram(port), pkt).Done?
    ensures NamedProgram(proto).Some? ==> Verdict(NamedProgram(proto).value, pkt).Done?
  {
    PortTableChecked(port, 8, 5);
    CheckedHalts(PortProgram(port), pkt);
    if NamedProgram(proto).Some? {
      var prog := NamedProgram(proto).value;
      if prog != ArpProgram() {
        var protocol := prog[3].k;
        assert prog == ProtoProgram(protocol);
        ProtoTableChecked(protocol, 2);
      }
      assert Checked(prog);
      CheckedHalts(prog, pkt);
    }
  }

  // ---- the exact accept sets ----

  /** The u16 field at a position, when the packet reaches that far. */
  predicate HalfIs(pkt: seq<byte>, at: nat, value: nat) {
    at + 2 <= |pkt| && U16(pkt[at], pkt[at + 1]) == value
  }

  /** The first byte after the IPv4 header, by the header-length nibble. */
  function TransportAt(pkt: seq<byte>): nat
    requires |pkt| > 14
  {
    14 + pkt[14] % 16 * 4
  }

  predicate IsIpv4(pkt: seq<byte>) {
    HalfIs(pkt, 12, 0x0800)
  }

  predicate Ipv4Protocol(pkt: seq<byte>, protocol: byte) {
    IsIpv4(pkt) && |pkt| > 23 && pkt[23] == protocol
  }

  /** The first or the second u16 of the transport header is port, each if the packet reaches it. */
  predicate EitherPortIs(pkt: seq<byte>, port: nat)
    requires |pkt| > 14
  {
    var t := TransportAt(pkt);
    HalfIs(pkt, t, port) || HalfIs(pkt, t + 2, port)
  }

  /** The packets meant by "port": IPv4 TCP or UDP with that source or destination port. */
  predicate PortMatches(pkt: seq<byte>, port: nat) {
    (Ipv4Protocol(pkt, 6) || Ipv4Protocol(pkt, 17)) && EitherPortIs(pkt, port)
  }

  /** Packets whose ethertype can be read and is not IPv4. */
  predicate OtherEtherType(pkt: seq<byte>) {
    |pkt| >= 14 && !IsIpv4(pkt)
  }

  /** IPv4 packets whose protocol can be read and is neither TCP nor UDP. */
  predicate OtherProtocol(pkt: seq<byte>) {
    IsIpv4(pkt) && |pkt| > 23 && pkt[23] != 6 && pkt[23] != 17
  }

  function Decision(accept: bool): State {
    Done(if accept then ACCEPT else 0)
  }

  /** From the first port load on: instructions 5 to 11. */
  lemma PortTail(prog: Program, port: nat, otherEther: nat, otherProto: nat, pkt: seq<byte>, s: State)
    requires prog == PortTable(port, otherEther, otherProto) && |pkt| > 14 && s.At? && s.pc == 5
    ensures From(prog, pkt, s) == Decision(EitherPortIs(pkt, port))
  {
    var t := TransportAt(pkt);
    var s6 := At(6, s.a, t - 14);
    Hop(prog, pkt, s, s6);
    if t + 2 <= |pkt| {
      var first := U16(pkt[t], pkt[t + 1]);
      var s7 := At(7, first, t - 14);
      Hop(prog, pkt, s6, s7);
      if first == port {
        var s10 := At(10, first, t - 14);
        Hop(prog, pkt, s7, s10);
        assert From(prog, pkt, s10) == Decision(true);
      } else {
        var s8 := At(8, first, t - 14);
        Hop(prog, pkt, s7, s8);
        SecondPort(prog, port, otherEther, otherProto, pkt, s8, t);
      }
    } else {
      Hop(prog, pkt, s6, Done(0));
    }
  }

  lemma SecondPort(prog: Program, port: nat, otherEther: nat, otherProto: nat, pkt: seq<byte>, s: State, t: nat)
    requires prog == PortTable(port, otherEther, otherProto) && t >= 14 && s.At? && s.pc == 8 && s.x == t - 14
    ensures From(prog, pkt, s) == Decision(HalfIs(pkt, t + 2, port))
  {
    if t + 4 <= |pkt| {
      var second := U16(pkt[t + 2], pkt[t + 3]);
      var s9 := At(9, second, t - 14);
      Hop(prog, pkt, s, s9);
      var end := At(if second == port then 10 else 11, second, t - 14);
      Hop(prog, pkt, s9, end);
      assert From(prog, pkt, end) == Decision(second == port);
    } else {
      Hop(prog, pkt, s, Done(0));
    }
  }

  /** Runs the table with its two open jumps; each may land on accept (8, 5) or on reject (9, 6). */
  lemma RunPortTable(port: nat, otherEther: nat, otherProto: nat, pkt: seq<byte>)
    requires otherEther in {8, 9} && otherProto in {5, 6}
    ensures Verdict(PortTable(port, otherEther, otherProto), pkt) ==
      Decision(PortMatches(pkt, port)
               || (otherEther == 8 && OtherEtherType(pkt)) || (otherProto == 5 && OtherProtocol(pkt)))
  {
    var prog := PortTable(port, otherEther, otherProto);
    PortTableChecked(port, otherEther, otherProto);
    FromIsSteps(prog, pkt, START);
    if |pkt| < 14 {
      Hop(prog, pkt, START, Done(0));
    } else {
      var ether := U16(pkt[12], pkt[13]);
      var s1 := At(1, ether, 0);
      Hop(prog, pkt, START, s1);
      if ether != 0x0800 {
        var end := At(2 + otherEther, ether, 0);
        Hop(prog, pkt, s1, end);
        assert From(prog, pkt, end) == Decision(otherEther == 8);
      } else {
        var s2 := At(2, ether, 0);
        Hop(prog, pkt, s1, s2);
        RunProtocolTest(prog, port, otherEther, otherProto, pkt, s2);
      }
    }
  }

  lemma RunProtocolTest(prog: Program, port: nat, otherEther: nat, otherProto: nat, pkt: seq<byte>, s: State)
    requires prog == PortTable(port, otherEther, otherProto) && otherProto in {5, 6}
    requires s == At(2, 0x0800, 0) && IsIpv4(pkt)
    ensures From(prog, pkt, s) == Decision(PortMatches(pkt, port) || (otherProto == 5 && OtherProtocol(pkt)))
  {
    if |pkt| <= 23 {
      Hop(prog, pkt, s, Done(0));
    } else {
      var protocol := pkt[23];
      var s3 := At(3, protocol, 0);
      Hop(prog, pkt, s, s3);
      if protocol == 6 {
        Hop(prog, pkt, s3, At(5, protocol, 0));
        PortTail(prog, port, otherEther, otherProto, pkt, At(5, protocol, 0));
      } else {
        var s4 := At(4, protocol, 0);
        Hop(prog, pkt, s3, s4);
        if protocol == 17 {
          Hop(prog, pkt, s4, At(5, protocol, 0));
          PortTail(prog, port, otherEther, otherProto, pkt, At(5, protocol, 0));
        } else {
          var end := At(5 + otherProto, protocol, 0);
          Hop(prog, pkt, s4, end);
          assert From(prog, pkt, end) == Decision(otherProto == 5);
        }
      }
    }
  }

  /** The exact accept set of the port filter: the two false branches land on the accept instruction. */
  lemma PortAcceptSet(port: nat, pkt: seq<byte>)
    ensures Verdict(PortProgram(port), pkt) ==
      Decision(PortMatches(pkt, port) || OtherEtherType(pkt) || OtherProtocol(pkt))
  {
    RunPortTable(port, 8, 5, pkt);
  }

  /** Retargeting those two jumps one instruction further gives exactly the matching packets. */
  lemma RetargetedPortAcceptSet(port: nat, pkt: seq<byte>)
    ensures Verdict(PortTable(port, 9, 6), pkt) == Decision(PortMatches(pkt, port))
  {
    RunPortTable(port, 9, 6, pkt);
  }

  lemma RunProtoTable(protocol: byte, otherEther: nat, pkt: seq<byte>)
    requires otherEther in {2, 3}
    ensures Verdict(ProtoTable(protocol, otherEther), pkt) ==
      Decision(Ipv4Protocol(pkt, protocol) || (otherEther == 2 && OtherEtherType(pkt)))
  {
    var prog := ProtoTable(protocol, otherEther);
    ProtoTableChecked(protocol, otherEther);
    FromIsSteps(prog, pkt, START);
    if |pkt| < 14 {
      Hop(prog, pkt, START, Done(0));
    } else {
      var ether := U16(pkt[12], pkt[13]);
      var s1 := At(1, ether, 0);
      Hop(prog, pkt, START, s1);
      if ether != 0x0800 {
        var end := At(2 + otherEther, ether, 0);
        Hop(prog, pkt, s1, end);
        assert From(prog, pkt, end) == Decision(otherEther == 2);
      } else {
        var s2 := At(2, ether, 0);
        Hop(prog, pkt, s1, s2);
        if |pkt| <= 23 {
          Hop(prog, pkt, s2, Done(0));
        } else {
          var s3 := At(3, pkt[23], 0);
          Hop(prog, pkt, s2, s3);
          var end := At(if pkt[23] == protocol then 4 else 5, pkt[23], 0);
          Hop(prog, pkt, s3, end);
          assert From(prog, pkt, end) == Decision(pkt[23] == protocol);
        }
      }
    }
  }

  /** The exact accept set of the tcp, udp and icmp filters. */
  lemma ProtoAcceptSet(protocol: byte, pkt: seq<byte>)
    ensures Verdict(ProtoProgram(protocol), pkt) == Decision(Ipv4Protocol(pkt, protocol) || OtherEtherType(pkt))
  {
    RunProtoTable(protocol, 2, pkt);
  }

  lemma RetargetedProtoAcceptSet(protocol: byte, pkt: seq<byte>)
    ensures Verdict(ProtoTable(protocol, 3), pkt) == Decision(Ipv4Protocol(pkt, protocol))
  {
    RunProtoTable(protocol, 3, pkt);
  }

  /** The arp filter has no such branch: it accepts exactly the ARP ethertype. */
  lemma ArpAcceptSet(pkt: seq<byte>)
    ensures Verdict(ArpProgram(), pkt) == Decision(HalfIs(pkt, 12, 0x0806))
  {
    var prog := ArpProgram();
    FromIsSteps(prog, pkt, START);
    if |pkt| < 14 {
      Hop(prog, pkt, START, Done(0));
    } else {
      var ether := U16(pkt[12], pkt[13]);
      var s1 := At(1, ether, 0);
      Hop(prog, pkt, START, s1);
      var end := At(if ether == 0x0806 then 2 else 3, ether, 0);
      Hop(prog, pkt, s1, end);
      assert From(prog, pkt, end) == Decision(ether == 0x0806);
    }
  }

  /** attach_filter_proto by name, in any case: what the chosen table accepts, or no table at all. */
  lemma NamedAcceptSets(proto: string, pkt: seq<byte>)
    ensures
      var name := ToLowercase(proto);
      match NamedProgram(proto)
      case None => name !in {"tcp", "udp", "icmp", "arp"}
      case Some(prog) =>
        && (name == "tcp" ==> Verdict(prog, pkt) == Decision(Ipv4Protocol(pkt, 6) || OtherEtherType(pkt)))
        && (name == "udp" ==> Verdict(prog, pkt) == Decision(Ipv4Protocol(pkt, 17) || OtherEtherType(pkt)))
        && (name == "icmp" ==> Verdict(prog, pkt) == Decision(Ipv4Protocol(pkt, 1) || OtherEtherType(pkt)))
        && (name == "arp" ==> Verdict(prog, pkt) == Decision(HalfIs(pkt, 12, 0x0806)))
  {
    ProtoAcceptSet(6, pkt);
    ProtoAcceptSet(17, pkt);
    ProtoAcceptSet(1, pkt);
    ArpAcceptSet(pkt);
    hide Verdict, ToLowercase;
  }

  // ---- against the parsers ----

  /** The filter agrees with the parsers: a frame they read as TCP or UDP over IPv4 passes the port filter iff
      its source or destination port is the port, whatever its header length. */
  lemma PortFilterAgreesWithParsers(port: nat, frame: seq<byte>)
    requires var r := RouteFrame(frame); r.Tcp? || r.Udp?
    ensures
      var r := RouteFrame(frame);
      Verdict(PortProgram(port), frame) == Decision(r.srcPort == port || r.dstPort == port)
  {
    RoutedPorts(frame);
    PortAcceptSet(port, frame);
  }

  /** An IPv4 frame whose IPv4 header does not parse. */
  predicate BrokenIpv4(frame: seq<byte>) {
    IsIpv4(frame) && Ipv4Header.Parse(frame[14..]).Err?
  }

  /** What each protocol filter decides for each way the dispatch can go. A frame the dispatch ignores is rejected by
      all four filters, unless it is cut short or broken behind a readable protocol field of the filter's own
      protocol. */
  lemma ProtoFiltersAgreeWithParsers(frame: seq<byte>)
    ensures
      var tcp, udp := Verdict(ProtoProgram(6), frame), Verdict(ProtoProgram(17), frame);
      var icmp, arp := Verdict(ProtoProgram(1), frame), Verdict(ArpProgram(), frame);
      match RouteFrame(frame)
      case Tcp(_, _, _, _, _) =>
        tcp == Decision(true) && udp == Decision(false) && icmp == Decision(false) && arp == Decision(false)
      case Udp(_, _, _, _, _) =>
        tcp == Decision(false) && udp == Decision(true) && icmp == Decision(false) && arp == Decision(false)
      case Icmp(_) =>
        tcp == Decision(false) && udp == Decision(false) && icmp == Decision(true) && arp == Decision(false)
      case NotIpv4(etherType, _) =>
        arp == Decision(etherType == Arp)
        && tcp == Decision(true) && udp == Decision(true) && icmp == Decision(true)
      case Ignored =>
        arp == Decision(false)
        && tcp == Decision(Ipv4Protocol(frame, 6)) && udp == Decision(Ipv4Protocol(frame, 17))
        && icmp == Decision(BrokenIpv4(frame) && Ipv4Protocol(frame, 1))
  {
    ProtoAcceptSet(6, frame);
    ProtoAcceptSet(17, frame);
    ProtoAcceptSet(1, frame);
    ArpAcceptSet(frame);
    hide Verdict;
    if RouteFrame(frame).Tcp? || RouteFrame(frame).Udp? {
      RoutedPorts(frame);
    } else if |frame| > 23 {
      assert frame[14..][9] == frame[23];
    }
  }

  /** A frame that is too short for Ethernet is rejected by every filter, and so is a frame with a readable IPv4 header
      of another protocol by the three that look for one. */
  lemma UnwantedFramesRejected(port: nat, frame: seq<byte>)
    ensures |frame| < 14 ==>
      Verdict(PortProgram(port), frame) == Verdict(ArpProgram(), frame) == Decision(false)
      && forall protocol :: Verdict(ProtoProgram(protocol), frame) == Decision(false)
    ensures forall protocol ::
      IsIpv4(frame) && |frame| > 23 && frame[23] != protocol ==>
        Verdict(ProtoProgram(protocol), frame) == Decision(false)
  {
    PortAcceptSet(port, frame);
    ArpAcceptSet(frame);
    forall protocol
      ensures Verdict(ProtoProgram(protocol), frame) == Decision(Ipv4Protocol(frame, protocol) || OtherEtherType(frame))
    {
      ProtoAcceptSet(protocol, frame);
    }
  }

  predicate IsIpv6(frame: seq<byte>) {
    HalfIs(frame, 12, 0x86DD)
  }

  /** Over IPv6 the filters decide nothing: every frame with that ethertype passes the port, tcp, udp and icmp
      filters. The retargeted tables reject them all, so they would lose the TCP and UDP over IPv6 that process_packet
      handles. */
  lemma PortFilterOverIpv6(port: nat, frame: seq<byte>)
    requires IsIpv6(frame)
    ensures Verdict(PortProgram(port), frame) == Decision(true)
    ensures Verdict(PortTable(port, 9, 6), frame) == Decision(false)
    ensures forall protocol :: Verdict(ProtoProgram(protocol), frame) == Decision(true)
    ensures forall protocol :: Verdict(ProtoTable(protocol, 3), frame) == Decision(false)
  {
    PortAcceptSet(port, frame);
    RetargetedPortAcceptSet(port, frame);
    forall protocol
      ensures Verdict(ProtoProgram(protocol), frame) == Decision(true)
    {
      ProtoAcceptSet(protocol, frame);
    }
    forall protocol
      ensures Verdict(ProtoTable(protocol, 3), frame) == Decision(false)
    {
      RetargetedProtoAcceptSet(protocol, frame);
    }
  }

  /** Where process_packet takes a frame, TCP and UDP over IPv6 included. */
  function Handled(frame: seq<byte>): Route {
    match RouteFrame(frame)
    case NotIpv4(etherType, payload) => if etherType == Ipv6 then RouteIpv6(payload) else RouteFrame(frame)
    case _ => RouteFrame(frame)
  }

  /** On TCP and UDP as the program handles them, over IPv4 or IPv6: the port filter never loses a matching frame and
      passes just the matching ones and all of IPv6; the retargeted table passes just the matching ones of IPv4. */
  lemma PortFilterOnHandled(port: nat, frame: seq<byte>)
    requires Handled(frame).Tcp? || Handled(frame).Udp?
    ensures
      var r := Handled(frame);
      var matches := r.srcPort == port || r.dstPort == port;
      && Verdict(PortProgram(port), frame) == Decision(matches || IsIpv6(frame))
      && Verdict(PortTable(port, 9, 6), frame) == Decision(matches && !IsIpv6(frame))
  {
    hide Verdict;
    if IsIpv6(frame) {
      PortFilterOverIpv6(port, frame);
    } else {
      RoutedPorts(frame);
      PortAcceptSet(port, frame);
      RetargetedPortAcceptSet(port, frame);
    }
  }

  /** "Only matching packets reach userspace" fails: an ARP frame passes every port filter and the tcp filter. */
  lemma ArpFramePassesPortFilter(port: nat)
    ensures
      var frame := seq(12, _ => 0) + [0x08, 0x06];
      !PortMatches(frame, port) && Verdict(PortProgram(port), frame) == Decision(true)
      && Verdict(ProtoProgram(6), frame) == Decision(true)
  {
    var frame := seq(12, _ => 0) + [0x08, 0x06];
    PortAcceptSet(port, frame);
    ProtoAcceptSet(6, frame);
  }

  /** It holds for a packet exactly when the packet takes neither of the two accept-landing branches; matching is what
      the table looks for, IPv4 TCP or UDP with the port. */
  lemma OnlyMatchingIff(port: nat, pkt: seq<byte>)
    ensures (Verdict(PortProgram(port), pkt) == Decision(true) ==> PortMatches(pkt, port))
        <==> !OtherEtherType(pkt) && !OtherProtocol(pkt)
  {
    PortAcceptSet(port, pkt);
  }

  /** The tcp, udp and icmp tables fail the same promise, on exactly the packets with another ethertype. */
  lemma OnlyMatchingProtoIff(protocol: byte, pkt: seq<byte>)
    ensures (Verdict(ProtoProgram(protocol), pkt) == Decision(true) ==> Ipv4Protocol(pkt, protocol))
        <==> !OtherEtherType(pkt)
  {
    ProtoAcceptSet(protocol, pkt);
  }

  /** c is the letter l, in either case; l and u are its two forms. */
  predicate Letter(c: char, l: char, u: char) {
    c == l || c == u
  }

  /** The names, letter by letter: any mix of cases picks the table, nothing else does. */
  lemma NamesInAnyCase(proto: string)
    ensures NamedProgram(proto) == Some(ProtoProgram(6)) <==>
      |proto| == 3 && Letter(proto[0], 't', 'T') && Letter(proto[1], 'c', 'C') && Letter(proto[2], 'p', 'P')
    ensures NamedProgram(proto) == Some(ProtoProgram(17)) <==>
      |proto| == 3 && Letter(proto[0], 'u', 'U') && Letter(proto[1], 'd', 'D') && Letter(proto[2], 'p', 'P')
    ensures NamedProgram(proto) == Some(ProtoProgram(1)) <==>
      |proto| == 4 && Letter(proto[0], 'i', 'I') && Letter(proto[1], 'c', 'C') && Letter(proto[2], 'm', 'M')
      && Letter(proto[3], 'p', 'P')
    ensures NamedProgram(proto) == Some(ArpProgram()) <==>
      |proto| == 3 && Letter(proto[0], 'a', 'A') && Letter(proto[1], 'r', 'R') && Letter(proto[2], 'p', 'P')
  {
    var name := ToLowercase(proto);
    TablesDiffer();
    hide ProtoProgram, ArpProgram;
    assert |name| == |proto| && forall i :: 0 <= i < |name| ==> name[i] == Lower(proto[i]);
    SameText3(name, 't', 'c', 'p');
    SameText3(name, 'u', 'd', 'p');
    SameText3(name, 'a', 'r', 'p');
    assert name == "icmp" <==> |name| == 4 && name[0] == 'i' && name[1] == 'c' && name[2] == 'm' && name[3] == 'p';
    assert "tcp" == ['t', 'c', 'p'] && "udp" == ['u', 'd', 'p'] && "arp" == ['a', 'r', 'p'];
  }

  lemma SameText3(s: string, a: char, b: char, c: char)
    ensures s == [a, b, c] <==> |s| == 3 && s[0] == a && s[1] == b && s[2] == c
  {
  }

  lemma TablesDiffer()
    ensures ProtoProgram(6) != ProtoProgram(17) && ProtoProgram(6) != ProtoProgram(1)
    ensures ProtoProgram(17) != ProtoProgram(1)
    ensures ArpProgram() !in {ProtoProgram(6), ProtoProgram(17), ProtoProgram(1)}
  {
    assert ProtoProgram(6)[3].k == 6 && ProtoProgram(17)[3].k == 17 && ProtoProgram(1)[3].k == 1;
    assert |ArpProgram()| == 4 && |ProtoProgram(6)| == |ProtoProgram(17)| == |ProtoProgram(1)| == 6;
  }
}
