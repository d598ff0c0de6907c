/** The capture path put together: frames from the ring, dispatched by process_packet, fed to the stream tracker. */
module Capture {
  import opened Bytes
  import opened Headers
  import opened StreamRuns
  import Json
  import RingProtocol
  import TcpStreams

  /** Display for Ipv4Address. */
  function DisplayIp(ip: seq<byte>): string
    requires |ip| == 4
  {
    Json.Decimal(ip[0]) + ("." + (Json.Decimal(ip[1]) + ("." + (Json.Decimal(ip[2]) + ("." + Json.Decimal(ip[3]))))))
  }

  lemma ReadDecimal(n: nat, rest: string)
    requires |rest| == 0 || !Json.IsDigit(rest[0])
    ensures Json.ReadDigits(Json.Decimal(n) + rest, 0) == (n, rest)
  {
    Json.ReadDecimalOnto(n, rest, 0);
  }

  /** Numbers at the front of equal texts are equal, and so is what follows them. */
  lemma SameNumber(m: nat, n: nat, r: string, s: string)
    requires Json.Decimal(m) + ("." + r) == Json.Decimal(n) + ("." + s)
    ensures m == n && r == s
  {
    hide Json.Decimal, Json.ReadDigits;
    ReadDecimal(m, "." + r);
    ReadDecimal(n, "." + s);
    assert ("." + r)[1..] == r && ("." + s)[1..] == s;
  }

  lemma SameLastNumber(m: nat, n: nat)
    requires Json.Decimal(m) == Json.Decimal(n)
    ensures m == n
  {
    hide Json.Decimal, Json.ReadDigits;
    ReadDecimal(m, "");
    ReadDecimal(n, "");
    assert Json.Decimal(m) + "" == Json.Decimal(m) && Json.Decimal(n) + "" == Json.Decimal(n);
  }

  /** Different addresses print differently. */
  lemma DisplayIsInjective(a: seq<byte>, b: seq<byte>)
    requires |a| == 4 && |b| == 4 && DisplayIp(a) == DisplayIp(b)
    ensures a == b
  {
    hide Json.Decimal;
    var a3, b3 := Json.Decimal(a[3]), Json.Decimal(b[3]);
    var a2, b2 := Json.Decimal(a[2]) + ("." + a3), Json.Decimal(b[2]) + ("." + b3);
    var a1, b1 := Json.Decimal(a[1]) + ("." + a2), Json.Decimal(b[1]) + ("." + b2);
    SameNumber(a[0], b[0], a1, b1);
    SameNumber(a[1], b[1], a2, b2);
    SameNumber(a[2], b[2], a3, b3);
    SameLastNumber(a[3], b[3]);
  }

  lemma {:induction false} DecimalIsDigits(n: nat)
    ensures forall i :: 0 <= i < |Json.Decimal(n)| ==> Json.IsDigit(Json.Decimal(n)[i])
  {
    if n >= 10 {
      DecimalIsDigits(n / 10);
    }
  }

  lemma DisplayIsAscii(ip: seq<byte>)
    requires |ip| == 4
    ensures forall i :: 0 <= i < |DisplayIp(ip)| ==> DisplayIp(ip)[i] < 128 as char
  {
    hide Json.Decimal;
    DecimalIsDigits(ip[0]);
    DecimalIsDigits(ip[1]);
    DecimalIsDigits(ip[2]);
    DecimalIsDigits(ip[3]);
  }

  function IpText(ip: seq<byte>): seq<byte>
    requires |ip| == 4
  {
    AsciiBytes(DisplayIp(ip))
  }

  lemma IpTextIsInjective(a: seq<byte>, b: seq<byte>)
    requires |a| == 4 && |b| == 4
    ensures IpText(a) == IpText(b) <==> a == b
  {
    if IpText(a) == IpText(b) {
      hide DisplayIp;
      var s, t := DisplayIp(a), DisplayIp(b);
      DisplayIsAscii(a);
      DisplayIsAscii(b);
      assert |s| == |AsciiBytes(s)| == |AsciiBytes(t)| == |t|;
      forall i | 0 <= i < |s|
        ensures s[i] == t[i]
      {
        assert AsciiBytes(s)[i] == s[i] as int && AsciiBytes(t)[i] == t[i] as int;
      }
      DisplayIsInjective(a, b);
    }
  }

  /** What process_packet feeds to the tracker for a frame, if anything. */
  function TcpEvent(frame: seq<byte>): Option<TcpStreams.Event> {
    match RouteFrame(frame)
    case Tcp(srcIp, srcPort, dstIp, dstPort, payload) =>
      RoutedAddresses(frame);
      var src := TcpStreams.Endpoint(IpText(srcIp), srcPort);
      var dst := TcpStreams.Endpoint(IpText(dstIp), dstPort);
      Some(TcpStreams.Feed(src, dst, payload))
    case _ => None
  }

  lemma RoutedAddresses(frame: seq<byte>)
    requires RouteFrame(frame).Tcp?
    ensures |RouteFrame(frame).srcIp| == 4 && |RouteFrame(frame).dstIp| == 4
  {
  }

  /** The stream a TCP frame belongs to. */
  function KeyOf(frame: seq<byte>): TcpStreams.StreamKey
    requires TcpEvent(frame).Some?
  {
    TcpStreams.NewKey(TcpEvent(frame).value.src, TcpEvent(frame).value.dst)
  }

  /** Two TCP frames are put in the same stream exactly when they carry the same two addresses and ports, in either
      direction: printing the addresses confuses nothing. */
  lemma SameStreamIff(f: seq<byte>, g: seq<byte>)
    requires RouteFrame(f).Tcp? && RouteFrame(g).Tcp?
    ensures
      var r, s := RouteFrame(f), RouteFrame(g);
      KeyOf(f) == KeyOf(g) <==>
        (r.srcIp == s.srcIp && r.srcPort == s.srcPort && r.dstIp == s.dstIp && r.dstPort == s.dstPort) ||
        (r.srcIp == s.dstIp && r.srcPort == s.dstPort && r.dstIp == s.srcIp && r.dstPort == s.srcPort)
  {
    hide RouteFrame, IpText, TcpStreams.NewKey;
    RoutedAddresses(f);
    RoutedAddresses(g);
    var r, s := RouteFrame(f), RouteFrame(g);
    IpTextIsInjective(r.srcIp, s.srcIp);
    IpTextIsInjective(r.dstIp, s.dstIp);
    IpTextIsInjective(r.srcIp, s.dstIp);
    IpTextIsInjective(r.dstIp, s.srcIp);
    var e, d := TcpEvent(f).value, TcpEvent(g).value;
    TcpStreams.KeysAreCanonical(e.src, e.dst, d.src, d.dst);
  }

  /** The calls of feed that a run of frames causes. */
  function Events(frames: seq<seq<byte>>): seq<TcpStreams.Event> {
    if |frames| == 0 then []
    else
      var before := Events(Butlast(frames));
      match TcpEvent(Last(frames))
      case None => before
      case Some(e) => before + [e]
  }

  /** The TCP payloads among the frames that belong to the stream k, in order. */
  function TcpPayloads(frames: seq<seq<byte>>, k: TcpStreams.StreamKey): seq<seq<byte>> {
    if |frames| == 0 then []
    else
      var before, f := TcpPayloads(Butlast(frames), k), Last(frames);
      if TcpEvent(f).Some? && KeyOf(f) == k then before + [RouteFrame(f).payload] else before
  }

  lemma {:induction false} EventsCarryPayloads(frames: seq<seq<byte>>, k: TcpStreams.StreamKey)
    ensures Concat(Payloads(Events(frames), k)) == Concat(TcpPayloads(frames, k))
    ensures forall i :: 0 <= i < |Events(frames)| ==> !Events(frames)[i].Clear?
  {
    if |frames| > 0 {
      hide RouteFrame, IpText, TcpStreams.NewKey, Concat;
      EventsCarryPayloads(Butlast(frames), k);
      var f := Last(frames);
      var es := Events(frames);
      if TcpEvent(f).Some? {
        assert Butlast(es) == Events(Butlast(frames)) && Last(es) == TcpEvent(f).value;
        PayloadsGrow(es, k);
        ConcatSnoc(TcpPayloads(Butlast(frames), k), RouteFrame(f).payload);
        NoPayload(Concat(TcpPayloads(Butlast(frames), k)));
      }
    }
  }

  lemma NoPayload(s: seq<byte>)
    ensures s + [] == s
  {
  }

  /** From the ring to the streams: in every run of the block protocol, between two calls of recv_block, what the
      tracker has flushed for a stream followed by what it still holds is exactly the TCP payloads of that stream
      among the frames of the released blocks, in capture order. */
  lemma CapturedBytesAreConserved(trace: seq<RingProtocol.State>, n: nat, k: TcpStreams.StreamKey)
    requires RingProtocol.Run(trace) && n < |trace| && (trace[n].phase.Polling? || trace[n].phase.Released?)
    ensures
      var s := trace[n];
      var es := Events(s.delivered);
      && RingProtocol.AllBlocks(s.retired) && s.released <= |s.retired|
      && Concat(Flushes(es, k)) + TcpStreams.StreamOf(StateAfter(es), k).data
           == Concat(TcpPayloads(RingProtocol.AllFrames(s.retired[..s.released]), k))
  {
    hide TcpEvent, RingProtocol.Run, Concat;
    RingProtocol.FifoExactlyOnce(trace, n);
    var es := Events(trace[n].delivered);
    EventsCarryPayloads(trace[n].delivered, k);
    BytesAreConserved(es, k);
    FlushesAreAllTaken(es, k);
  }

  /** So the padding of a bare ACK counts as bytes of its stream. */
  lemma PaddingIsCaptured()
    ensures TcpEvent(PaddedAck()).Some?
    ensures
      var k, es := KeyOf(PaddedAck()), Events([PaddedAck()]);
      Concat(Flushes(es, k)) + TcpStreams.StreamOf(StateAfter(es), k).data == [0, 0, 0, 0, 0, 0]
  {
    PaddedAckHasPayload();
    hide RouteFrame, PaddedAck, IpText, TcpStreams.NewKey;
    var f := PaddedAck();
    var k, es := KeyOf(f), Events([f]);
    assert Butlast([f]) == [] && Last([f]) == f;
    var payload := RouteFrame(f).payload;
    assert TcpPayloads([f], k) == [] + [payload];
    ConcatSnoc([], payload);
    EventsCarryPayloads([f], k);
    hide Events, Concat;
    BytesAreConserved(es, k);
    FlushesAreAllTaken(es, k);
  }

  // ---- what a stream is named by ----

  /** Four numbers with dots between them, read back to the end of the text. */
  function ReadIp(s: string): Option<seq<nat>> {
    var (a, s1) := Json.ReadDigits(s, 0);
    if |s1| == 0 || s1[0] != '.' then None
    else
      var (b, s2) := Json.ReadDigits(s1[1..], 0);
      if |s2| == 0 || s2[0] != '.' then None
      else
        var (c, s3) := Json.ReadDigits(s2[1..], 0);
        if |s3| == 0 || s3[0] != '.' then None
        else
          var (d, s4) := Json.ReadDigits(s3[1..], 0);
          if |s4| == 0 then Some([a, b, c, d]) else None
  }

  /** An address prints as its four bytes, first to last. */
  lemma DisplayReadsBack(ip: seq<byte>)
    requires |ip| == 4
    ensures ReadIp(DisplayIp(ip)) == Some([ip[0], ip[1], ip[2], ip[3]])
  {
    hide Json.Decimal, Json.ReadDigits;
    var t3 := "." + Json.Decimal(ip[3]);
    var t2 := "." + (Json.Decimal(ip[2]) + t3);
    var t1 := "." + (Json.Decimal(ip[1]) + t2);
    ReadDecimal(ip[0], t1);
    ReadDecimal(ip[1], t2);
    ReadDecimal(ip[2], t3);
    ReadDecimal(ip[3], "");
    assert Json.Decimal(ip[3]) + "" == Json.Decimal(ip[3]);
    assert t1[1..] == Json.Decimal(ip[1]) + t2 && t2[1..] == Json.Decimal(ip[2]) + t3;
    assert t3[1..] == Json.Decimal(ip[3]);
  }

  /** The key of a frame's stream holds the printed source address with the source port, and the printed destination
      address with the destination port, the lesser of the two as the client; what is fed is the payload. */
  lemma KeyNamesBothSides(frame: seq<byte>)
    requires RouteFrame(frame).Tcp?
    ensures |RouteFrame(frame).srcIp| == 4 && |RouteFrame(frame).dstIp| == 4
    ensures
      var r, k := RouteFrame(frame), KeyOf(frame);
      var src, dst := IpText(r.srcIp), IpText(r.dstIp);
      && (k == TcpStreams.StreamKey(src, r.srcPort, dst, r.dstPort)
          || k == TcpStreams.StreamKey(dst, r.dstPort, src, r.srcPort))
      && (TcpStreams.TextLess(k.clientIp, k.serverIp)
          || (k.clientIp == k.serverIp && k.clientPort <= k.serverPort))
      && TcpEvent(frame).value.payload == r.payload
  {
    hide RouteFrame, IpText;
    RoutedAddresses(frame);
    var e := TcpEvent(frame).value;
    TcpStreams.KeysAreOrdered(e.src, e.dst);
  }
}
