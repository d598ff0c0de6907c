/** Whole runs of the stream tracker: conservation of bytes, independence of streams, reachable states. */
module StreamRuns {
  import opened Bytes
  import opened TcpStreams

  function Butlast<T>(s: seq<T>): seq<T>
    requires |s| > 0
  {
    s[..|s| - 1]
  }

  function Last<T>(s: seq<T>): T
    requires |s| > 0
  {
    s[|s| - 1]
  }

  /** The streams after a run from the empty tracker. */
  function StateAfter(es: seq<Event>): Streams {
    if |es| == 0 then map[] else After(StateAfter(Butlast(es)), Last(es))
  }

  /** What the last call of a run gave out. */
  function LastOut(es: seq<Event>): Output
    requires |es| > 0
  {
    Out(StateAfter(Butlast(es)), Last(es))
  }

  /** The bytes an output takes away from the stream of k. */
  function Taken(o: Output, k: StreamKey): seq<byte> {
    match o
    case Nothing => []
    case Flushed(k', data) => if k' == k then data else []
    case Cleared(m) => StreamOf(m, k).data
  }

  /** Everything taken from the stream of k over a run, flushes and clears in order. */
  function AllTaken(es: seq<Event>, k: StreamKey): seq<byte> {
    if |es| == 0 then [] else AllTaken(Butlast(es), k) + Taken(LastOut(es), k)
  }

  /** The buffers flushed for k over a run, in order. */
  function Flushes(es: seq<Event>, k: StreamKey): seq<seq<byte>> {
    if |es| == 0 then []
    else
      var before := Flushes(Butlast(es), k);
      match LastOut(es)
      case Flushed(k', data) => if k' == k then before + [data] else before
      case _ => before
  }

  predicate IsFeedOf(e: Event, k: StreamKey) {
    e.Feed? && NewKey(e.src, e.dst) == k
  }

  /** The non-empty payloads fed for k, in either direction, in order. */
  function Payloads(es: seq<Event>, k: StreamKey): seq<seq<byte>> {
    if |es| == 0 then []
    else
      var before := Payloads(Butlast(es), k);
      if IsFeedOf(Last(es), k) && Last(es).payload != [] then before + [Last(es).payload] else before
  }

  // ---- conservation ----

  lemma StepConserves(m: Streams, e: Event, k: StreamKey)
    ensures Taken(Out(m, e), k) + StreamOf(After(m, e), k).data ==
      StreamOf(m, k).data + (if IsFeedOf(e, k) then e.payload else [])
  {
    hide Due;
  }

  /** No byte is lost, duplicated or reordered: for each key, what the run took from the stream followed by what is
      still buffered is exactly what was fed for that key. */
  lemma {:induction false} BytesAreConserved(es: seq<Event>, k: StreamKey)
    ensures AllTaken(es, k) + StreamOf(StateAfter(es), k).data == Concat(Payloads(es, k))
  {
    if |es| > 0 {
      hide After, Out, Taken, StreamOf;
      var m, e := StateAfter(Butlast(es)), Last(es);
      BytesAreConserved(Butlast(es), k);
      StepConserves(m, e, k);
      PayloadsGrow(es, k);
      hide Payloads, IsFeedOf;
      Regroup(AllTaken(Butlast(es), k), Taken(LastOut(es), k), StreamOf(After(m, e), k).data,
              StreamOf(m, k).data, if IsFeedOf(e, k) then e.payload else []);
    }
  }

  lemma Regroup(taken: seq<byte>, now: seq<byte>, left: seq<byte>, held: seq<byte>, fed: seq<byte>)
    requires now + left == held + fed
    ensures (taken + now) + left == (taken + held) + fed
  {
    calc {
      (taken + now) + left;
      taken + (now + left);
      taken + (held + fed);
      (taken + held) + fed;
    }
  }

  lemma PayloadsGrow(es: seq<Event>, k: StreamKey)
    requires |es| > 0
    ensures Concat(Payloads(es, k)) ==
      Concat(Payloads(Butlast(es), k)) + (if IsFeedOf(Last(es), k) then Last(es).payload else [])
  {
    if IsFeedOf(Last(es), k) {
      ConcatSnoc(Payloads(Butlast(es), k), Last(es).payload);
    }
  }

  /** Without a clear, the flushed buffers and the rest are everything that was fed. */
  lemma {:induction false} FlushesAreAllTaken(es: seq<Event>, k: StreamKey)
    requires forall i :: 0 <= i < |es| ==> !es[i].Clear?
    ensures AllTaken(es, k) == Concat(Flushes(es, k))
  {
    hide After, Due;
    if |es| > 0 {
      FlushesAreAllTaken(Butlast(es), k);
      match LastOut(es)
      case Flushed(k', data) =>
        ConcatSnoc(Flushes(Butlast(es), k), data);
      case _ =>
    }
  }

  // ---- one stream on its own ----

  /** What one stream sees of an event. */
  datatype Input = Payload(bytes: seq<byte>) | Reset | Elsewhere

  function Project(e: Event, k: StreamKey): Input {
    match e
    case Clear => Reset
    case Feed(src, dst, payload) => if NewKey(src, dst) == k then Payload(payload) else Elsewhere
  }

  datatype Single = Single(data: seq<byte>, packetCount: nat, flushes: seq<seq<byte>>)

  /** A tracker that knows one stream only. */
  function SingleStep(s: Single, i: Input): Single {
    match i
    case Elsewhere => s
    case Reset => Single([], 0, s.flushes)
    case Payload(p) =>
      if p == [] then s
      else if Due(s.data + p) then Single([], 0, s.flushes + [s.data + p])
      else Single(s.data + p, s.packetCount + 1, s.flushes)
  }

  function SingleRun(inputs: seq<Input>): Single {
    if |inputs| == 0 then Single([], 0, []) else SingleStep(SingleRun(Butlast(inputs)), Last(inputs))
  }

  /** The inputs of one stream: the events of all others left out. */
  function Projection(es: seq<Event>, k: StreamKey): seq<Input> {
    if |es| == 0 then []
    else
      var before, i := Projection(Butlast(es), k), Project(Last(es), k);
      if i.Elsewhere? then before else before + [i]
  }

  lemma StepIsSingle(m: Streams, e: Event, k: StreamKey, flushes: seq<seq<byte>>)
    ensures
      var s, t := StreamOf(m, k), StreamOf(After(m, e), k);
      var u := SingleStep(Single(s.data, s.packetCount, flushes), Project(e, k));
      && t.data == u.data && t.packetCount == u.packetCount
      && u.flushes == (match Out(m, e)
                       case Flushed(k', data) => if k' == k then flushes + [data] else flushes
                       case _ => flushes)
  {
    hide Due, TextLess;
  }

  /** Streams do not interfere: whatever else a run feeds, the stream of k flushes the same buffers in the same order
      and holds the same data as a tracker that is given that stream's payloads alone. */
  lemma {:induction false} StreamsAreIndependent(es: seq<Event>, k: StreamKey)
    ensures
      var s := StreamOf(StateAfter(es), k);
      SingleRun(Projection(es, k)) == Single(s.data, s.packetCount, Flushes(es, k))
  {
    if |es| > 0 {
      hide After, Out, SingleStep, StreamOf;
      StreamsAreIndependent(Butlast(es), k);
      StepIsSingle(StateAfter(Butlast(es)), Last(es), k, Flushes(Butlast(es), k));
      var before, i := Projection(Butlast(es), k), Project(Last(es), k);
      if i.Elsewhere? {
        ElsewhereChangesNothing(SingleRun(before));
      } else {
        assert Butlast(before + [i]) == before;
      }
    }
  }

  lemma ElsewhereChangesNothing(s: Single)
    ensures SingleStep(s, Elsewhere) == s
  {
  }

  /** Feeds to different streams commute, in what they leave behind and in what they give out. */
  lemma FeedsCommute(m: Streams, e: Event, f: Event)
    requires e.Feed? && f.Feed? && NewKey(e.src, e.dst) != NewKey(f.src, f.dst)
    ensures After(After(m, e), f) == After(After(m, f), e)
    ensures Out(After(m, e), f) == Out(m, f) && Out(After(m, f), e) == Out(m, e)
  {
    hide Due, NewKey;
  }

  // ---- reachable states ----

  /** The last n elements. */
  function Suffix<T>(s: seq<T>, n: nat): seq<T>
    requires n <= |s|
  {
    s[|s| - n..]
  }

  /** A buffered stream holds exactly its last packet_count non-empty payloads, and is not due for a flush. */
  ghost predicate Accounted(s: TcpStream, k: StreamKey, payloads: seq<seq<byte>>) {
    && s.key == k
    && s.packetCount <= |payloads|
    && s.data == Concat(Suffix(payloads, s.packetCount))
    && s.packetCount <= |s.data| < 4096
    && !HttpLine(s.data)
  }

  lemma {:induction false} ReachableStreams(es: seq<Event>, k: StreamKey)
    ensures Accounted(StreamOf(StateAfter(es), k), k, Payloads(es, k))
  {
    hide Accounted, After, StreamOf;
    if |es| == 0 {
      EmptyIsAccounted(k, []);
      FreshStream(k);
    } else {
      ReachableStreams(Butlast(es), k);
      StepIsAccounted(StateAfter(Butlast(es)), Last(es), k, Payloads(Butlast(es), k));
    }
  }

  lemma FreshStream(k: StreamKey)
    ensures StreamOf(map[], k) == TcpStream(k, [], 0)
  {
  }

  /** One call keeps the account of the stream. */
  lemma StepIsAccounted(m: Streams, e: Event, k: StreamKey, before: seq<seq<byte>>)
    requires Accounted(StreamOf(m, k), k, before)
    ensures Accounted(StreamOf(After(m, e), k), k,
                      if IsFeedOf(e, k) && e.payload != [] then before + [e.payload] else before)
  {
    hide Due, HttpLine, Concat, NewKey;
    if IsFeedOf(e, k) && e.payload != [] {
      var s := StreamOf(m, k);
      var now := before + [e.payload];
      DueIff(s.data + e.payload);
      EmptyIsAccounted(k, now);
      AppendPayload(before, s.packetCount, e.payload);
    } else if e.Clear? {
      EmptyIsAccounted(k, before);
    }
  }

  lemma EmptyIsAccounted(k: StreamKey, payloads: seq<seq<byte>>)
    ensures Accounted(TcpStream(k, [], 0), k, payloads)
  {
    assert Suffix(payloads, 0) == [];
    assert 10 !in TcpStream(k, [], 0).data;
  }

  lemma AppendPayload(before: seq<seq<byte>>, n: nat, p: seq<byte>)
    requires n <= |before|
    ensures Concat(Suffix(before + [p], n + 1)) == Concat(Suffix(before, n)) + p
  {
    assert Suffix(before + [p], n + 1) == Suffix(before, n) + [p];
    ConcatSnoc(Suffix(before, n), p);
  }

  /** Every flush in every run: a non-empty run of whole payloads ending with the one just fed, shorter than the
      threshold before that one was added. */
  lemma FlushesAreBounded(es: seq<Event>)
    requires |es| > 0 && LastOut(es).Flushed?
    ensures
      var k, data := LastOut(es).key, LastOut(es).data;
      && IsFeedOf(Last(es), k)
      && (|data| >= 4096 || HttpLine(data))
      && |Last(es).payload| <= |data| < 4096 + |Last(es).payload|
      && exists n :: 0 < n <= |Payloads(es, k)| && data == Concat(Suffix(Payloads(es, k), n))
  {
    hide Due, HttpLine, Concat, NewKey, StateAfter;
    DueIff(LastOut(es).data);
    var k := LastOut(es).key;
    var s := StreamOf(StateAfter(Butlast(es)), k);
    ReachableStreams(Butlast(es), k);
    AppendPayload(Payloads(Butlast(es), k), s.packetCount, Last(es).payload);
    assert s.packetCount + 1 <= |Payloads(es, k)|;
  }
}
