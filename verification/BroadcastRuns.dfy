/** Whole runs of the broadcaster: what each client's byte stream contains. */
module BroadcastRuns {
  import opened Bytes
  import opened WebSocket
  import opened Broadcast

  datatype Event =
    | Registration(system: Text, write: Write)
    | Message(msg: Text, writes: seq<Write>)

  /** How a connection started: its system frame, how much of it was written, and how many messages came before. */
  datatype Opening = Opening(system: Text, written: nat, joined: nat)

  /** live is the shared client list, gone the connections removed from it; openings and messages record the run. */
  datatype State = State(live: seq<Client>, gone: seq<Client>, openings: seq<Opening>, messages: seq<Text>)

  const INITIAL: State := State([], [], [], [])

  ghost predicate Enabled(s: State, e: Event) {
    match e
    case Registration(system, w) => Possible(w, Encode(system))
    case Message(msg, ws) => |ws| == |s.live| && AllPossible(ws, Encode(msg))
  }

  /** What Register and BroadcastMessage do to a server whose clients are live and which has registered one connection
      for each opening: the functions are those of their contracts. */
  ghost function Step(s: State, e: Event): State
    requires Enabled(s, e)
  {
    match e
    case Registration(system, w) =>
      s.(live := Joined(s.live, |s.openings|, system, w),
         openings := s.openings + [Opening(system, w.written, |s.messages|)])
    case Message(msg, ws) =>
      s.(live := Reached(s.live, msg, ws, true), gone := s.gone + Reached(s.live, msg, ws, false),
         messages := s.messages + [msg])
  }

  /** A run from the empty server through the states trace. */
  ghost predicate Run(trace: seq<State>, events: seq<Event>) {
    && |trace| == |events| + 1
    && trace[0] == INITIAL
    && forall i :: 0 <= i < |events| ==> Enabled(trace[i], events[i]) && trace[i + 1] == Step(trace[i], events[i])
  }

  ghost predicate OpeningFits(o: Opening, s: State) {
    o.written <= |Encode(o.system)| && o.joined <= |s.messages|
  }

  /** The part of the system frame that was written. */
  ghost function Opened(o: Opening): seq<byte>
    requires o.written <= |Encode(o.system)|
  {
    Encode(o.system)[..o.written]
  }

  /** A live client has been sent its opening and every message since. */
  ghost predicate LiveStream(c: Client, s: State) {
    && c.id < |s.openings|
    && var o := s.openings[c.id];
    && OpeningFits(o, s)
    && c.sent == Opened(o) + EncodeAll(s.messages[o.joined..])
  }

  /** A removed client has been sent its opening, the messages up to some point, and at most a part of the next. */
  ghost predicate GoneStream(c: Client, s: State, upTo: nat, cut: nat) {
    && c.id < |s.openings|
    && var o := s.openings[c.id];
    && OpeningFits(o, s)
    && o.joined <= upTo < |s.messages| && cut <= |Encode(s.messages[upTo])|
    && c.sent == Opened(o) + EncodeAll(s.messages[o.joined..upTo]) + Encode(s.messages[upTo])[..cut]
  }

  ghost predicate Gone(c: Client, s: State) {
    exists upTo, cut :: GoneStream(c, s, upTo, cut)
  }

  ghost predicate HasClient(cs: seq<Client>, id: nat) {
    exists i :: 0 <= i < |cs| && cs[i].id == id
  }

  ghost predicate AllLive(s: State) {
    forall i :: 0 <= i < |s.live| ==> LiveStream(s.live[i], s)
  }

  ghost predicate AllGone(s: State) {
    forall i :: 0 <= i < |s.gone| ==> Gone(s.gone[i], s)
  }

  /** Every registered connection is in one of the two lists. */
  ghost predicate AllThere(s: State) {
    && (forall id: nat :: id < |s.openings| ==> HasClient(s.live, id) || HasClient(s.gone, id))
    && |s.live| + |s.gone| == |s.openings|
  }

  ghost predicate Inv(s: State) {
    AllLive(s) && AllGone(s) && AllThere(s)
  }

  lemma EncodeAllOne(p: Text)
    ensures EncodeAll([p]) == Encode(p)
  {
    assert EncodeAll([p][1..]) == [];
  }

  lemma StaysGone(c: Client, s: State, t: State, upTo: nat, cut: nat)
    requires GoneStream(c, s, upTo, cut) && s.openings <= t.openings && s.messages <= t.messages
    ensures GoneStream(c, t, upTo, cut)
  {
    var o := s.openings[c.id];
    assert t.openings[c.id] == o && t.messages[upTo] == s.messages[upTo];
    assert t.messages[o.joined..upTo] == s.messages[o.joined..upTo];
  }

  lemma GoneStayGone(s: State, t: State)
    requires AllGone(s) && s.openings <= t.openings && s.messages <= t.messages
    ensures forall i :: 0 <= i < |s.gone| ==> Gone(s.gone[i], t)
  {
    forall i | 0 <= i < |s.gone|
      ensures Gone(s.gone[i], t)
    {
      var upTo, cut :| GoneStream(s.gone[i], s, upTo, cut);
      StaysGone(s.gone[i], s, t, upTo, cut);
    }
  }

  lemma RegistrationInv(s: State, e: Event)
    requires Inv(s) && Enabled(s, e) && e.Registration?
    ensures Inv(Step(s, e))
  {
    hide Encode, EncodeAll, GoneStream;
    var t := Step(s, e);
    var n := |s.live|;
    GoneStayGone(s, t);
    NothingSinceJoining(t);
    forall i | 0 <= i < |t.live|
      ensures LiveStream(t.live[i], t)
    {
      if i < n {
        assert LiveStream(s.live[i], s);
        assert t.openings[s.live[i].id] == s.openings[s.live[i].id];
      }
    }
    forall id: nat | id < |t.openings|
      ensures HasClient(t.live, id) || HasClient(t.gone, id)
    {
      if id == |s.openings| {
        assert t.live[n].id == id;
      } else if HasClient(s.live, id) {
        var i :| 0 <= i < n && s.live[i].id == id;
        assert t.live[i].id == id;
      }
    }
  }

  lemma NothingSinceJoining(t: State)
    ensures EncodeAll(t.messages[|t.messages|..]) == []
  {
  }

  /** Where each selected client comes from. */
  lemma {:induction false} SelectedFrom(cs: seq<Client>, ws: seq<Write>, ok: bool, i: nat, j: nat) returns (k: nat)
    requires |cs| == |ws| && i <= |cs| && j < |Select(cs, ws, ok, i)|
    ensures i <= k < |cs| && ws[k].ok == ok && Select(cs, ws, ok, i)[j] == cs[k]
    decreases |cs| - i
  {
    if ws[i].ok == ok && j == 0 {
      k := i;
    } else {
      k := SelectedFrom(cs, ws, ok, i + 1, if ws[i].ok == ok then j - 1 else j);
    }
  }

  /** Every client is selected on the side its write ended on. */
  lemma {:induction false} SelectedOn(cs: seq<Client>, ws: seq<Write>, i: nat, k: nat)
    requires |cs| == |ws| && i <= k < |cs|
    ensures HasClient(Select(cs, ws, ws[k].ok, i), cs[k].id)
    decreases k - i
  {
    var r := Select(cs, ws, ws[k].ok, i);
    if k == i {
      assert r[0] == cs[k];
    } else {
      SelectedOn(cs, ws, i + 1, k);
      var tail := Select(cs, ws, ws[k].ok, i + 1);
      var j :| 0 <= j < |tail| && tail[j].id == cs[k].id;
      assert r[|r| - |tail| + j] == tail[j];
    }
  }

  lemma {:induction false} SelectionPartitions(cs: seq<Client>, ws: seq<Write>, i: nat)
    requires |cs| == |ws| && i <= |cs|
    ensures |Select(cs, ws, true, i)| + |Select(cs, ws, false, i)| == |cs| - i
    decreases |cs| - i
  {
    if i < |cs| {
      SelectionPartitions(cs, ws, i + 1);
    }
  }

  lemma WrittenLive(c: Client, s: State, t: State, msg: Text, w: Write)
    requires LiveStream(c, s) && Possible(w, Encode(msg)) && w.ok
    requires t.openings == s.openings && t.messages == s.messages + [msg]
    ensures LiveStream(WriteTo(c, Encode(msg), w), t)
  {
    hide Encode, EncodeAll;
    var o := s.openings[c.id];
    EncodeAllAppend(s.messages[o.joined..], [msg]);
    EncodeAllOne(msg);
    assert t.messages[o.joined..] == s.messages[o.joined..] + [msg];
    assert Encode(msg)[..w.written] == Encode(msg);
  }

  lemma WrittenGone(c: Client, s: State, t: State, msg: Text, w: Write)
    requires LiveStream(c, s) && Possible(w, Encode(msg))
    requires t.openings == s.openings && t.messages == s.messages + [msg]
    ensures GoneStream(WriteTo(c, Encode(msg), w), t, |s.messages|, w.written)
  {
    hide Encode, EncodeAll;
    var o := s.openings[c.id];
    assert t.messages[o.joined..|s.messages|] == s.messages[o.joined..];
  }

  lemma MessageInv(s: State, e: Event)
    requires Inv(s) && Enabled(s, e) && e.Message?
    ensures Inv(Step(s, e))
  {
    hide Encode, EncodeAll, Select, LiveStream, GoneStream, WriteTo;
    var t := Step(s, e);
    var ws := e.writes;
    var all := WriteAll(s.live, Encode(e.msg), ws);
    SelectionPartitions(all, ws, 0);
    forall i | 0 <= i < |t.live|
      ensures LiveStream(t.live[i], t)
    {
      var k := SelectedFrom(all, ws, true, 0, i);
      WrittenLive(s.live[k], s, t, e.msg, ws[k]);
    }
    GoneStayGone(s, t);
    forall i | 0 <= i < |t.gone|
      ensures Gone(t.gone[i], t)
    {
      if i >= |s.gone| {
        var k := SelectedFrom(all, ws, false, 0, i - |s.gone|);
        WrittenGone(s.live[k], s, t, e.msg, ws[k]);
      }
    }
    forall id: nat | id < |t.openings|
      ensures HasClient(t.live, id) || HasClient(t.gone, id)
    {
      IdsKept(s.live, Encode(e.msg), ws);
      StillThere(s, t, all, ws, id);
    }
  }

  lemma IdsKept(cs: seq<Client>, data: seq<byte>, ws: seq<Write>)
    requires |cs| == |ws| && forall i :: 0 <= i < |ws| ==> ws[i].written <= |data|
    ensures forall k :: 0 <= k < |cs| ==> WriteAll(cs, data, ws)[k].id == cs[k].id
  {
  }

  lemma StillThere(s: State, t: State, all: seq<Client>, ws: seq<Write>, id: nat)
    requires |all| == |ws| == |s.live| && forall k :: 0 <= k < |all| ==> all[k].id == s.live[k].id
    requires HasClient(s.live, id) || HasClient(s.gone, id)
    requires t.live == Select(all, ws, true, 0) && t.gone == s.gone + Select(all, ws, false, 0)
    ensures HasClient(t.live, id) || HasClient(t.gone, id)
  {
    if HasClient(s.gone, id) {
      var j :| 0 <= j < |s.gone| && s.gone[j].id == id;
      assert t.gone[j].id == id;
    } else {
      var k :| 0 <= k < |s.live| && s.live[k].id == id;
      SelectedOn(all, ws, 0, k);
      if !ws[k].ok {
        var failed := Select(all, ws, false, 0);
        var j :| 0 <= j < |failed| && failed[j].id == id;
        assert t.gone[|s.gone| + j].id == id;
      }
    }
  }

  lemma {:induction false} RunInv(trace: seq<State>, events: seq<Event>, n: nat)
    requires Run(trace, events) && n < |trace|
    ensures Inv(trace[n])
  {
    if n > 0 {
      RunInv(trace, events, n - 1);
      assert trace[n - 1 + 1] == Step(trace[n - 1], events[n - 1]);
      if events[n - 1].Registration? {
        RegistrationInv(trace[n - 1], events[n - 1]);
      } else {
        MessageInv(trace[n - 1], events[n - 1]);
      }
    }
  }

  // ---- what clients decode ----

  ghost predicate Complete(o: Opening) {
    o.written == |Encode(o.system)|
  }

  /** A live client decodes to its system frame and every message since it registered, with nothing left over. */
  ghost predicate WholeSegment(s: State, c: Client) {
    && c.id < |s.openings|
    && var o := s.openings[c.id];
    && o.joined <= |s.messages|
    && DecodeAll(c.sent) == Stream([o.system] + s.messages[o.joined..], [])
  }

  /** The client decodes to its system frame and the messages before upTo, with a cut frame of the next left over. */
  ghost predicate SegmentThenCut(s: State, c: Client, upTo: nat) {
    && c.id < |s.openings|
    && var o := s.openings[c.id];
    && o.joined <= upTo <= |s.messages|
    && var d := DecodeAll(c.sent);
    && d.texts == [o.system] + s.messages[o.joined..upTo]
    && (d.left == [] || (upTo < |s.messages| && ProperPrefix(d.left, s.messages[upTo])))
  }

  ghost predicate Welcomed(s: State, c: Client) {
    c.id < |s.openings| && Complete(s.openings[c.id])
  }

  /** In every run, every registered connection is live or removed, and whatever the writes did, one whose system frame
      was written in full decodes to that frame, then a gapless in-order segment of the broadcast messages from its
      registration on (all of them while it is live), then at most one cut frame. */
  lemma ClientStreams(trace: seq<State>, events: seq<Event>, n: nat)
    requires Run(trace, events) && n < |trace|
    ensures
      var s := trace[n];
      && (forall id: nat :: id < |s.openings| ==> HasClient(s.live, id) || HasClient(s.gone, id))
      && |s.live| + |s.gone| == |s.openings|
      && (forall i :: 0 <= i < |s.live| ==>
            s.live[i].id < |s.openings| && (Welcomed(s, s.live[i]) ==> WholeSegment(s, s.live[i])))
      && (forall i :: 0 <= i < |s.gone| ==>
            s.gone[i].id < |s.openings| &&
            (Welcomed(s, s.gone[i]) ==> exists upTo :: SegmentThenCut(s, s.gone[i], upTo)))
  {
    RunInv(trace, events, n);
    var s := trace[n];
    forall i | 0 <= i < |s.live|
      ensures s.live[i].id < |s.openings| && (Welcomed(s, s.live[i]) ==> WholeSegment(s, s.live[i]))
    {
      assert LiveStream(s.live[i], s);
      if Complete(s.openings[s.live[i].id]) {
        LiveDecodes(s, s.live[i]);
      }
    }
    forall i | 0 <= i < |s.gone|
      ensures s.gone[i].id < |s.openings|
      ensures Welcomed(s, s.gone[i]) ==> exists upTo :: SegmentThenCut(s, s.gone[i], upTo)
    {
      assert Gone(s.gone[i], s);
      var upTo, cut :| GoneStream(s.gone[i], s, upTo, cut);
      if Complete(s.openings[s.gone[i].id]) {
        GoneDecodes(s, s.gone[i], upTo, cut);
      }
    }
  }

  lemma OpenedThen(o: Opening, ps: seq<Text>)
    requires Complete(o)
    ensures Opened(o) + EncodeAll(ps) == EncodeAll([o.system] + ps)
  {
    hide Encode, EncodeAll;
    EncodeAllAppend([o.system], ps);
    EncodeAllOne(o.system);
  }

  lemma DecodeWhole(ps: seq<Text>)
    ensures DecodeAll(EncodeAll(ps)) == Stream(ps, [])
  {
    hide Encode, EncodeAll;
    StreamRoundTrip(ps, [], []);
    assert EncodeAll(ps) + [] == EncodeAll(ps);
  }

  lemma LiveDecodes(s: State, c: Client)
    requires LiveStream(c, s) && Complete(s.openings[c.id])
    ensures DecodeAll(c.sent) == Stream([s.openings[c.id].system] + s.messages[s.openings[c.id].joined..], [])
  {
    hide DecodeAll;
    var o := s.openings[c.id];
    OpenedThen(o, s.messages[o.joined..]);
    DecodeWhole([o.system] + s.messages[o.joined..]);
  }

  lemma GoneDecodes(s: State, c: Client, upTo: nat, cut: nat)
    requires GoneStream(c, s, upTo, cut) && Complete(s.openings[c.id])
    ensures SegmentThenCut(s, c, upTo) || SegmentThenCut(s, c, upTo + 1)
  {
    hide DecodeAll, Encode, EncodeAll;
    var o := s.openings[c.id];
    var next := s.messages[upTo];
    var sofar := [o.system] + s.messages[o.joined..upTo];
    OpenedThen(o, s.messages[o.joined..upTo]);
    if cut < |Encode(next)| {
      StreamRoundTrip(sofar, Encode(next)[..cut], next);
    } else {
      assert Encode(next)[..cut] == Encode(next);
      EncodeAllAppend(sofar, [next]);
      EncodeAllOne(next);
      DecodeWhole(sofar + [next]);
      assert sofar + [next] == [o.system] + s.messages[o.joined..upTo + 1];
    }
  }

  /** Ignoring the result of the system-frame write matters: a live client decodes to that frame and the messages
      exactly when the frame was written in full. */
  lemma LiveDecodesIff(trace: seq<State>, events: seq<Event>, n: nat, i: nat)
    requires Run(trace, events) && n < |trace| && i < |trace[n].live|
    ensures trace[n].live[i].id < |trace[n].openings|
    ensures WholeSegment(trace[n], trace[n].live[i]) <==> Welcomed(trace[n], trace[n].live[i])
  {
    hide DecodeAll, Encode, EncodeAll;
    RunInv(trace, events, n);
    var s, c := trace[n], trace[n].live[i];
    assert LiveStream(c, s);
    var o := s.openings[c.id];
    var all := [o.system] + s.messages[o.joined..];
    if Complete(o) {
      LiveDecodes(s, c);
    }
    if DecodeAll(c.sent) == Stream(all, []) {
      StreamIsItsMessages(c.sent);
      assert c.sent == EncodeAll(all) + [] == EncodeAll(all);
      EncodeAllAppend([o.system], s.messages[o.joined..]);
      EncodeAllOne(o.system);
      assert |Opened(o)| == |Encode(o.system)|;
    }
  }

  /** The text of the system frame: {"type":"system","interface":"..."}. */
  function SystemText(interfaceName: seq<byte>): seq<byte> {
    AsciiBytes("{\"type\":\"system\",") + AsciiBytes("\"interface\":\"") + interfaceName + AsciiBytes("\"}")
  }

  lemma {:induction false} KeptFrom(cs: seq<Client>, ws: seq<Write>, i: nat)
    requires |ws| == |cs| && i < |cs| && ws[|cs| - 1].ok
    ensures cs[|cs| - 1] in Select(cs, ws, true, i)
    decreases |cs| - i
  {
    if i + 1 < |cs| {
      KeptFrom(cs, ws, i + 1);
    }
  }

  lemma LastWritten(cs: seq<Client>, c: Client, data: seq<byte>, ws: seq<Write>)
    requires |ws| == |cs| + 1 && AllPossible(ws, data) && ws[|cs|].ok
    ensures Client(c.id, c.sent + data) in Select(WriteAll(cs + [c], data, ws), ws, true, 0)
  {
    var all := WriteAll(cs + [c], data, ws);
    assert data[..|data|] == data;
    assert all[|all| - 1] == Client(c.id, c.sent + data);
    KeptFrom(all, ws, 0);
  }

  /** Two bytes announcing n, then a frame that is long enough: a client takes the first n bytes of the frame for a
      text. */
  lemma HeaderEatsFrame(n: nat, frame: seq<byte>)
    requires n <= 125 && n <= |frame|
    ensures DecodeFrame([0x81, n] + frame) == Frame(true, 1, frame[..n], frame[n..])
  {
    var b := [0x81, n] + frame;
    assert b[2..2 + n] == frame[..n] && b[2 + n..] == frame[n..];
  }

  /** In any state, a connection whose system frame is cut after its two header bytes stays registered, and reads the
      frame of the next message as its system text, as far as the announced length goes. */
  lemma CutSystemFrameGarbles(s: State, system: Text, w: Write, msg: Text, ws: seq<Write>)
    requires |system| <= 125 && w == Write(2, false) && |system| <= |Encode(msg)|
    requires |ws| == |s.live| + 1 && AllPossible(ws, Encode(msg)) && ws[|s.live|].ok
    ensures Enabled(s, Registration(system, w))
    ensures
      var s1 := Step(s, Registration(system, w));
      var frame := Encode(msg);
      var c := Client(|s.openings|, [0x81, |system|] + frame);
      && Enabled(s1, Message(msg, ws)) && c in Step(s1, Message(msg, ws)).live
      && DecodeFrame(c.sent) == Frame(true, 1, frame[..|system|], frame[|system|..])
  {
    var frame := Encode(msg);
    assert Encode(system)[..2] == [0x81, |system|];
    hide Encode, DecodeFrame, Select, WriteAll;
    LastWritten(s.live, Client(|s.openings|, [0x81, |system|]), frame, ws);
    HeaderEatsFrame(|system|, frame);
  }

  /** The same for the system text that is sent: with an interface name of at most 15 bytes, as on Linux, every message
      of at least 47 bytes is garbled so. */
  lemma SystemTextGarbles(s: State, interfaceName: seq<byte>, msg: Text, ws: seq<Write>)
    requires |interfaceName| <= 15 && |msg| >= 47
    requires |ws| == |s.live| + 1 && AllPossible(ws, Encode(msg)) && ws[|s.live|].ok
    ensures
      var system := SystemText(interfaceName);
      && Encode(msg)[..|system|] != system
      && Enabled(s, Registration(system, Write(2, false)))
      && var s1 := Step(s, Registration(system, Write(2, false)));
      && Enabled(s1, Message(msg, ws))
      && exists c :: c in Step(s1, Message(msg, ws)).live && c.id == |s.openings|
                     && DecodeFrame(c.sent) ==
                        Frame(true, 1, Encode(msg)[..|system|], Encode(msg)[|system|..])
  {
    var system := SystemText(interfaceName);
    assert |system| == 32 + |interfaceName|;
    assert |Encode(msg)| >= |msg|;
    assert system[0] == '{' as int && Encode(msg)[..|system|][0] == 0x81;
    hide Encode, DecodeFrame, Select, WriteAll, Step, Enabled, SystemText;
    CutSystemFrameGarbles(s, system, Write(2, false), msg, ws);
  }
}
