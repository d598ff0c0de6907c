/** The TCP stream tracker: keying, feeding and flushing. */
module TcpStreams {
  import opened Bytes

  /** One side of a connection; ip holds the bytes of its text form. */
  datatype Endpoint = Endpoint(ip: seq<byte>, port: nat)

  datatype StreamKey = StreamKey(clientIp: seq<byte>, clientPort: nat, serverIp: seq<byte>, serverPort: nat)

  /** The order of Rust's str: by bytes, a proper prefix first. */
  predicate TextLess(a: seq<byte>, b: seq<byte>)
    decreases |a|
  {
    if |b| == 0 then false
    else if |a| == 0 then true
    else a[0] < b[0] || (a[0] == b[0] && TextLess(a[1..], b[1..]))
  }

  /** The order of (ip, port) pairs. */
  predicate Less(a: Endpoint, b: Endpoint) {
    TextLess(a.ip, b.ip) || (a.ip == b.ip && a.port < b.port)
  }

  function Pair(a: Endpoint, b: Endpoint): StreamKey {
    StreamKey(a.ip, a.port, b.ip, b.port)
  }

  /** StreamKey::new. */
  function NewKey(src: Endpoint, dst: Endpoint): StreamKey {
    if Less(src, dst) then Pair(src, dst) else Pair(dst, src)
  }

  lemma {:induction false} TextOrderTotal(a: seq<byte>, b: seq<byte>)
    ensures TextLess(a, b) ==> a != b && !TextLess(b, a)
    ensures TextLess(a, b) || a == b || TextLess(b, a)
    decreases |a|
  {
    if |a| > 0 && |b| > 0 {
      TextOrderTotal(a[1..], b[1..]);
      assert a == [a[0]] + a[1..] && b == [b[0]] + b[1..];
    }
  }

  lemma {:induction false} TextOrderTransitive(a: seq<byte>, b: seq<byte>, c: seq<byte>)
    requires TextLess(a, b) && TextLess(b, c)
    ensures TextLess(a, c)
    decreases |a|
  {
    if |a| > 0 && a[0] == b[0] == c[0] {
      TextOrderTransitive(a[1..], b[1..], c[1..]);
    }
  }

  /** The order read off the two texts: they agree up to some position, where the first one ends or has the smaller
      byte. */
  lemma {:induction false} TextLessIff(a: seq<byte>, b: seq<byte>)
    ensures TextLess(a, b) <==> exists n: nat :: FirstDifference(a, b, n)
    decreases |a|
  {
    if |a| > 0 && |b| > 0 && a[0] == b[0] {
      TextLessIff(a[1..], b[1..]);
      if n: nat :| FirstDifference(a[1..], b[1..], n) {
        assert a[..n + 1] == [a[0]] + a[1..][..n] && b[..n + 1] == [b[0]] + b[1..][..n];
        assert FirstDifference(a, b, n + 1);
      }
      forall n: nat | FirstDifference(a, b, n)
        ensures exists k: nat :: FirstDifference(a[1..], b[1..], k)
      {
        assert n > 0;
        assert a[1..][..n - 1] == a[..n][1..] && b[1..][..n - 1] == b[..n][1..];
        assert FirstDifference(a[1..], b[1..], n - 1);
      }
    } else if |b| > 0 && (|a| == 0 || a[0] < b[0]) {
      assert FirstDifference(a, b, 0);
    }
  }

  predicate FirstDifference(a: seq<byte>, b: seq<byte>, n: nat) {
    n <= |a| && n < |b| && a[..n] == b[..n] && (n == |a| || a[n] < b[n])
  }

  /** The key names the lesser endpoint the client: its text is the lesser one, or the texts are equal and its port is
      not the greater one. */
  lemma KeysAreOrdered(src: Endpoint, dst: Endpoint)
    ensures
      var k := NewKey(src, dst);
      && (k == StreamKey(src.ip, src.port, dst.ip, dst.port) || k == StreamKey(dst.ip, dst.port, src.ip, src.port))
      && (TextLess(k.clientIp, k.serverIp) || (k.clientIp == k.serverIp && k.clientPort <= k.serverPort))
  {
    TextOrderTotal(src.ip, dst.ip);
  }

  lemma OrderTotal(a: Endpoint, b: Endpoint)
    ensures Less(a, b) ==> a != b && !Less(b, a)
    ensures Less(a, b) || a == b || Less(b, a)
  {
    TextOrderTotal(a.ip, b.ip);
  }

  /** Two endpoint pairs share a key exactly when they are the same pair, in either direction. */
  lemma KeysAreCanonical(a: Endpoint, b: Endpoint, c: Endpoint, d: Endpoint)
    ensures NewKey(a, b) == NewKey(c, d) <==> (a == c && b == d) || (a == d && b == c)
  {
    OrderTotal(a, b);
    OrderTotal(c, d);
  }

  const FLUSH_THRESHOLD: nat := 4096
  const NEWLINE: byte := 10

  const GET: seq<byte> := [71, 69, 84, 32]
  const POST: seq<byte> := [80, 79, 83, 84, 32]
  const PUT: seq<byte> := [80, 85, 84, 32]
  const DELETE: seq<byte> := [68, 69, 76, 69, 84, 69, 32]
  const HTTP: seq<byte> := [72, 84, 84, 80, 47]

  predicate LooksLikeHttp(data: seq<byte>) {
    GET <= data || POST <= data || PUT <= data || DELETE <= data || HTTP <= data
  }

  /** The data is due for display. */
  predicate Due(data: seq<byte>) {
    |data| >= FLUSH_THRESHOLD || (LooksLikeHttp(data) && NEWLINE in data)
  }

  datatype TcpStream = TcpStream(key: StreamKey, data: seq<byte>, packetCount: nat)

  type Streams = map<StreamKey, TcpStream>

  /** The stream of k, or the fresh one that or_insert_with would make. */
  function StreamOf(m: Streams, k: StreamKey): TcpStream {
    if k in m then m[k] else TcpStream(k, [], 0)
  }

  datatype Event = Feed(src: Endpoint, dst: Endpoint, payload: seq<byte>) | Clear

  /** What a call gives out: a flushed buffer, or (for clear) the streams it throws away. */
  datatype Output = Nothing | Flushed(key: StreamKey, data: seq<byte>) | Cleared(streams: Streams)

  /** The streams after a call. */
  function After(m: Streams, e: Event): Streams {
    match e
    case Clear => map[]
    case Feed(src, dst, payload) =>
      if payload == [] then m
      else
        var k := NewKey(src, dst);
        var s := StreamOf(m, k);
        var data := s.data + payload;
        if Due(data) then m[k := TcpStream(s.key, [], 0)]
        else m[k := TcpStream(s.key, data, s.packetCount + 1)]
  }

  function Out(m: Streams, e: Event): Output {
    match e
    case Clear => Cleared(m)
    case Feed(src, dst, payload) =>
      var k := NewKey(src, dst);
      var data := StreamOf(m, k).data + payload;
      if payload != [] && Due(data) then Flushed(k, data) else Nothing
  }

  // ---- the flush rule ----

  /** data starts like an HTTP message and holds a line end. */
  ghost predicate HttpLine(data: seq<byte>) {
    && (|| AsciiBytes("GET ") <= data || AsciiBytes("POST ") <= data || AsciiBytes("PUT ") <= data
        || AsciiBytes("DELETE ") <= data || AsciiBytes("HTTP/") <= data)
    && 10 in data
  }

  lemma DueIff(data: seq<byte>)
    ensures Due(data) <==> |data| >= 4096 || HttpLine(data)
  {
    assert AsciiBytes("GET ") == GET && AsciiBytes("POST ") == POST && AsciiBytes("PUT ") == PUT;
    assert AsciiBytes("DELETE ") == DELETE && AsciiBytes("HTTP/") == HTTP;
  }

  /** What feeding a non-empty payload answers and leaves, from the bytes then held: at 4096 bytes they are always given
      out, below that exactly when they start like an HTTP message and hold a line end; else they stay. */
  lemma FeedAnswers(m: Streams, src: Endpoint, dst: Endpoint, payload: seq<byte>)
    requires payload != []
    ensures
      var k, e := NewKey(src, dst), Event.Feed(src, dst, payload);
      var held := StreamOf(m, k).data + payload;
      && (|held| >= 4096 || HttpLine(held) ==> Out(m, e) == Flushed(k, held) && StreamOf(After(m, e), k).data == [])
      && (|held| < 4096 && !HttpLine(held) ==> Out(m, e) == Nothing && StreamOf(After(m, e), k).data == held)
  {
    hide Due, NewKey;
    DueIff(StreamOf(m, NewKey(src, dst)).data + payload);
  }

  /** A request that arrives in one piece is given out at once. */
  lemma RequestIsFlushed(src: Endpoint, dst: Endpoint)
    ensures
      var request := AsciiBytes("GET / HTTP/1.1\r\n\r\n");
      var k, e := NewKey(src, dst), Event.Feed(src, dst, request);
      |request| == 18 && Out(map[], e) == Flushed(k, request) && StreamOf(After(map[], e), k).data == []
  {
    hide NewKey;
    var request := AsciiBytes("GET / HTTP/1.1\r\n\r\n");
    assert request[15] == 10;
    assert AsciiBytes("GET ") == request[..4];
    FeedAnswers(map[], src, dst, request);
    assert [] + request == request;
  }

  class TcpStreamTracker {
    var streams: Streams
    var flushThreshold: nat

    ghost predicate Valid()
      reads this
    {
      flushThreshold == FLUSH_THRESHOLD
    }

    constructor ()
      ensures Valid() && streams == map[]
    {
      streams := map[];
      flushThreshold := 4096;
    }

    method Feed(src: Endpoint, dst: Endpoint, payload: seq<byte>) returns (flushed: Option<(StreamKey, seq<byte>)>)
      requires Valid()
      modifies this
      ensures Valid()
      ensures streams == After(old(streams), Event.Feed(src, dst, payload))
      ensures
        match Out(old(streams), Event.Feed(src, dst, payload))
        case Flushed(k, data) => flushed == Some((k, data))
        case _ => flushed == None
      ensures
        var k := NewKey(src, dst);
        var held := StreamOf(old(streams), k).data + payload;
        flushed == if payload != [] && (|held| >= 4096 || HttpLine(held)) then Some((k, held)) else None
    {
      DueIff(StreamOf(streams, NewKey(src, dst)).data + payload);
      if |payload| == 0 {
        return None;
      }
      var key := NewKey(src, dst);
      if key !in streams {
        streams := streams[key := TcpStream(key, [], 0)];
      }
      var stream := streams[key];
      stream := stream.(data := stream.data + payload);
      stream := stream.(packetCount := stream.packetCount + 1);
      streams := streams[key := stream];

      var isHttpRequest := GET <= stream.data || POST <= stream.data || PUT <= stream.data
        || DELETE <= stream.data || HTTP <= stream.data;
      var shouldFlush := |stream.data| >= flushThreshold || (isHttpRequest && NEWLINE in stream.data);
      if shouldFlush {
        var flushedData := stream.data;
        streams := streams[key := stream.(data := [], packetCount := 0)];
        return Some((key, flushedData));
      }
      flushed := None;
    }

    method Clear()
      requires Valid()
      modifies this`streams
      ensures Valid() && streams == After(old(streams), Event.Clear)
    {
      streams := map[];
    }
  }
}
