/** The broadcaster thread and client registration: which bytes each WebSocket client is sent. */
module Broadcast {
  import opened Bytes
  import opened WebSocket

  /** A registered connection: its place in the order of registrations and what was written to it after the
      handshake response. */
  datatype Client = Client(id: nat, sent: seq<byte>)

  /** How write_all followed by flush ended on one connection. */
  datatype Write = Write(written: nat, ok: bool)

  /** A write puts out a prefix of the data, all of it when it succeeds. */
  predicate Possible(w: Write, data: seq<byte>) {
    w.written <= |data| && (w.ok ==> w.written == |data|)
  }

  ghost predicate AllPossible(ws: seq<Write>, data: seq<byte>) {
    forall i :: 0 <= i < |ws| ==> Possible(ws[i], data)
  }

  function WriteTo(c: Client, data: seq<byte>, w: Write): Client
    requires w.written <= |data|
  {
    c.(sent := c.sent + data[..w.written])
  }

  /** The frame written to every client. */
  function WriteAll(cs: seq<Client>, data: seq<byte>, ws: seq<Write>): (r: seq<Client>)
    requires |cs| == |ws| && forall i :: 0 <= i < |ws| ==> ws[i].written <= |data|
    ensures |r| == |cs|
  {
    seq(|cs|, i requires 0 <= i < |cs| => WriteTo(cs[i], data, ws[i]))
  }

  /** The clients from position i on whose write ended as ok says, in order. */
  function Select(cs: seq<Client>, ws: seq<Write>, ok: bool, i: nat): seq<Client>
    requires |cs| == |ws| && i <= |cs|
    decreases |cs| - i
  {
    if i == |cs| then []
    else (if ws[i].ok == ok then [cs[i]] else []) + Select(cs, ws, ok, i + 1)
  }

  /** The clients whose write of msg ended as ok says, in order, with what was written to them. */
  ghost function Reached(cs: seq<Client>, msg: Text, ws: seq<Write>, ok: bool): seq<Client>
    requires |ws| == |cs| && AllPossible(ws, Encode(msg))
  {
    Select(WriteAll(cs, Encode(msg), ws), ws, ok, 0)
  }

  /** The clients after connection id has been sent its system frame. */
  ghost function Joined(cs: seq<Client>, id: nat, system: Text, w: Write): seq<Client>
    requires Possible(w, Encode(system))
  {
    cs + [Client(id, Encode(system)[..w.written])]
  }

  /** registered counts the registrations; a connection, which the program knows by its socket, is named here by its
      place in that count. */
  class WebServer {
    var clients: seq<Client>
    var registered: nat

    constructor ()
      ensures clients == [] && registered == 0
    {
      clients := [];
      registered := 0;
    }

    /** One turn of the broadcaster loop; ws says how each client's write went. Returns the dropped connections. */
    method BroadcastMessage(msg: Text, ws: seq<Write>) returns (dropped: seq<Client>)
      requires |ws| == |clients| && AllPossible(ws, Encode(msg))
      modifies this
      ensures clients == Reached(old(clients), msg, ws, true) && dropped == Reached(old(clients), msg, ws, false)
      ensures registered == old(registered)
    {
      hide Encode, Select, WriteAll;
      var frame := EncodeTextFrame(msg);
      var toRemove := WriteToClients(frame, ws);
      dropped := RemoveFailed(toRemove, ws);
    }

    /** Writes the frame to each client in turn and notes the positions of those that failed. */
    method WriteToClients(frame: seq<byte>, ws: seq<Write>) returns (toRemove: seq<nat>)
      requires |ws| == |clients| && AllPossible(ws, frame)
      modifies this`clients
      ensures clients == WriteAll(old(clients), frame, ws)
      ensures FailedBelow(toRemove, ws, |ws|)
    {
      hide WriteTo;
      toRemove := [];
      ghost var all := WriteAll(clients, frame, ws);
      var idx := 0;
      while idx < |clients|
        invariant 0 <= idx <= |clients| == |ws| == |all|
        invariant forall k :: 0 <= k < |all| ==> clients[k] == if k < idx then all[k] else old(clients)[k]
        invariant FailedBelow(toRemove, ws, idx)
      {
        clients := clients[idx := WriteTo(clients[idx], frame, ws[idx])];
        if !ws[idx].ok {
          toRemove := toRemove + [idx];
        }
        idx := idx + 1;
      }
    }

    /** Removes the noted positions, last one first. */
    method RemoveFailed(toRemove: seq<nat>, ws: seq<Write>) returns (dropped: seq<Client>)
      requires |ws| == |clients| && FailedBelow(toRemove, ws, |ws|)
      modifies this`clients
      ensures clients == Select(old(clients), ws, true, 0)
      ensures dropped == Select(old(clients), ws, false, 0)
    {
      hide Select;
      ghost var all := clients;
      dropped := [];
      var j := |toRemove|;
      ghost var x := |all|;
      SelectEnd(all, ws);
      while j > 0
        invariant 0 <= j <= |toRemove| && x <= |all|
        invariant x == if j == |toRemove| then |all| else toRemove[j]
        invariant clients == all[..x] + Select(all, ws, true, x)
        invariant dropped == Select(all, ws, false, x)
      {
        j := j - 1;
        var i := toRemove[j];
        SelectOver(all, ws, i + 1, x);
        SelectStep(all, ws, i);
        assert clients == all[..i] + [all[i]] + Select(all, ws, true, i + 1);
        dropped := [clients[i]] + dropped;
        clients := clients[..i] + clients[i + 1..];
        x := i;
      }
      SelectOver(all, ws, 0, x);
    }

    /** The end of a successful handshake: the system frame is written, its result ignored, and the connection is
        added. */
    method Register(system: Text, w: Write)
      requires Possible(w, Encode(system))
      modifies this
      ensures clients == Joined(old(clients), old(registered), system, w)
      ensures registered == old(registered) + 1
    {
      var stream := Client(registered, []);
      var frame := EncodeTextFrame(system);
      stream := WriteTo(stream, frame, w);
      assert stream.sent == frame[..w.written];
      clients := clients + [stream];
      registered := registered + 1;
    }
  }

  /** failed lists, in increasing order, the positions below n whose write failed. */
  ghost predicate FailedBelow(failed: seq<nat>, ws: seq<Write>, n: nat)
    requires n <= |ws|
  {
    && (forall j :: 0 <= j < |failed| ==> failed[j] < n && !ws[failed[j]].ok)
    && (forall j, k :: 0 <= j < k < |failed| ==> failed[j] < failed[k])
    && (forall i :: 0 <= i < n && !ws[i].ok ==> i in failed)
  }

  lemma SelectEnd(cs: seq<Client>, ws: seq<Write>)
    requires |cs| == |ws|
    ensures Select(cs, ws, true, |cs|) == [] && Select(cs, ws, false, |cs|) == []
  {
  }

  lemma SelectStep(cs: seq<Client>, ws: seq<Write>, i: nat)
    requires |cs| == |ws| && i < |cs| && !ws[i].ok
    ensures Select(cs, ws, true, i) == Select(cs, ws, true, i + 1)
    ensures Select(cs, ws, false, i) == [cs[i]] + Select(cs, ws, false, i + 1)
  {
  }

  /** Over a stretch where every write succeeded, selecting keeps everything or nothing. */
  lemma {:induction false} SelectOver(cs: seq<Client>, ws: seq<Write>, i: nat, x: nat)
    requires |cs| == |ws| && i <= x <= |cs|
    requires forall k :: i <= k < x ==> ws[k].ok
    ensures Select(cs, ws, true, i) == cs[i..x] + Select(cs, ws, true, x)
    ensures Select(cs, ws, false, i) == Select(cs, ws, false, x)
    decreases x - i
  {
    if i < x {
      SelectOver(cs, ws, i + 1, x);
      assert cs[i..x] == [cs[i]] + cs[i + 1..x];
    }
  }
}
