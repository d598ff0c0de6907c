/** The announced record length against the ClientHello the parser walks: where the returned name stands, and when
    the announced record alone would give it. */
module TlsRecord {
  import opened Bytes
  import opened Tls
  import opened TlsGrammar
  import Utf8

  /** The announced end of the record. */
  function RecordEnd(buffer: seq<byte>): nat
    requires |buffer| >= 5
  {
    5 + U16(buffer[3], buffer[4])
  }

  /** Where the vectors of the hello end. */
  function HelloEnd(h: Hello): nat {
    FIXED_LEN + |EncodeTail(h)|
  }

  // ---- a buffer holds one hello ----

  lemma SameBe16(a: u16, b: u16)
    requires Be16(a) == Be16(b)
    ensures a == b
  {
    assert U16(Be16(a)[0], Be16(a)[1]) == a;
  }

  lemma SameFixed(h: Hello, k: Hello)
    requires WellSized(h) && WellSized(k) && EncodeFixed(h) == EncodeFixed(k)
    ensures h.recordVersion == k.recordVersion && h.recordLen == k.recordLen && h.handshakeLen == k.handshakeLen
    ensures h.clientVersion == k.clientVersion && h.random == k.random
  {
    FixedSlices(h);
    FixedSlices(k);
    SameBe16(h.recordLen, k.recordLen);
  }

  lemma FixedSlices(h: Hello)
    requires WellSized(h)
    ensures |EncodeFixed(h)| == FIXED_LEN
    ensures
      var f := EncodeFixed(h);
      && f[1..3] == h.recordVersion && f[3..5] == Be16(h.recordLen) && f[6..9] == h.handshakeLen
      && f[9..11] == h.clientVersion && f[11..43] == h.random
  {
  }

  lemma SameTail(h: Hello, t: seq<byte>, k: Hello, u: seq<byte>)
    requires EncodeTail(h) + t == EncodeTail(k) + u
    ensures h.sessionId == k.sessionId && h.cipherSuites == k.cipherSuites
    ensures h.compression == k.compression && h.extensions == k.extensions && t == u
  {
    hide TakeVec8, TakeVec16;
    TailVectors(h, t);
    TailVectors(k, u);
  }

  /** The vectors, taken off one after the other. */
  lemma TailVectors(h: Hello, t: seq<byte>)
    ensures
      var r3 := Vec16(h.extensions) + t;
      var r2 := Vec8(h.compression) + r3;
      var r1 := Vec16(h.cipherSuites) + r2;
      && TakeVec8(EncodeTail(h) + t) == Some((h.sessionId, r1))
      && TakeVec16(r1) == Some((h.cipherSuites, r2))
      && TakeVec8(r2) == Some((h.compression, r3))
      && TakeVec16(r3) == Some((h.extensions, t))
  {
    hide TakeVec8, TakeVec16;
    var r3 := Vec16(h.extensions) + t;
    var r2 := Vec8(h.compression) + r3;
    var r1 := Vec16(h.cipherSuites) + r2;
    assert EncodeTail(h) + t == Vec8(h.sessionId) + r1;
    TakeVec8Encoded(h.sessionId, r1);
    TakeVec16Encoded(h.cipherSuites, r2);
    TakeVec8Encoded(h.compression, r3);
    TakeVec16Encoded(h.extensions, t);
  }

  lemma FrontAndRest(buffer: seq<byte>, front: seq<byte>, tail: seq<byte>, trailing: seq<byte>)
    requires buffer == front + tail + trailing
    ensures buffer[..|front|] == front && buffer[|front|..] == tail + trailing
  {
    assert buffer == front + (tail + trailing);
  }

  /** A buffer can be read as a ClientHello in one way only. */
  lemma HelloIsUnique(buffer: seq<byte>, h: Hello, t: seq<byte>, k: Hello, u: seq<byte>)
    requires HelloThen(buffer, h, t) && HelloThen(buffer, k, u)
    ensures h == k && t == u
  {
    FixedSlices(h);
    FixedSlices(k);
    hide EncodeTail, EncodeFixed;
    FrontAndRest(buffer, EncodeFixed(h), EncodeTail(h), t);
    FrontAndRest(buffer, EncodeFixed(k), EncodeTail(k), u);
    SameFixed(h, k);
    SameTail(h, t, k, u);
  }

  // ---- the announced lengths ----

  lemma FixedType(h: Hello)
    ensures |EncodeFixed(h)| > 0 && EncodeFixed(h)[0] == 22
  {
  }

  lemma TailNotEmpty(h: Hello)
    ensures |EncodeTail(h)| > 0
  {
    hide Vec16;
  }

  lemma RecordEndOfHello(buffer: seq<byte>, h: Hello, trailing: seq<byte>)
    requires HelloThen(buffer, h, trailing)
    ensures |buffer| >= HelloEnd(h) > FIXED_LEN && RecordEnd(buffer) == 5 + h.recordLen
  {
    FixedSlices(h);
    TailNotEmpty(h);
    hide EncodeFixed, EncodeTail, Be16;
    FrontAndRest(buffer, EncodeFixed(h), EncodeTail(h), trailing);
    var f := EncodeFixed(h);
    assert buffer[3] == buffer[..FIXED_LEN][3] == f[3..5][0] && buffer[4] == buffer[..FIXED_LEN][4] == f[3..5][1];
  }

  /** Of the bytes before the session id only the content type and the handshake type have a say in any answer, errors
      included: neither announced length does, as long as the announced record end lies in the buffer. */
  lemma AnnouncedLengthsIgnored(a: seq<byte>, b: seq<byte>)
    requires |a| == |b| >= 5 && RecordEnd(a) <= |a| && RecordEnd(b) <= |b|
    requires a[0] == b[0] && (|a| > 5 ==> a[5] == b[5])
    requires forall i :: FIXED_LEN <= i < |a| ==> a[i] == b[i]
    ensures Outline(a) == Outline(b)
  {
    hide AfterRandom;
    if |a| > FIXED_LEN {
      assert a[FIXED_LEN..] == b[FIXED_LEN..];
    }
  }

  /** The announced record, cut out of the buffer, gives the name exactly when the hello ends inside it; otherwise it
      gives none. */
  lemma RecordAloneIff(buffer: seq<byte>, h: Hello, trailing: seq<byte>)
    requires HelloThen(buffer, h, trailing) && Outline(buffer).Sni?
    ensures RecordEnd(buffer) <= |buffer|
    ensures Outline(buffer[..RecordEnd(buffer)]).Sni? <==> HelloEnd(h) <= RecordEnd(buffer)
    ensures HelloEnd(h) <= RecordEnd(buffer) ==> Outline(buffer[..RecordEnd(buffer)]) == Outline(buffer)
  {
    hide Outline, EncodeTail, EncodeFixed;
    RecordEndOfHello(buffer, h, trailing);
    FixedSlices(h);
    var n := RecordEnd(buffer);
    var record := buffer[..n];
    if HelloEnd(h) <= n {
      var inside := trailing[..n - HelloEnd(h)];
      assert record == EncodeFixed(h) + EncodeTail(h) + inside;
      OutlineOfHello(buffer, h, trailing);
      OutlineOfHello(record, h, inside);
    } else if Outline(record).Sni? {
      var k, inside := SplitHello(record);
      assert buffer == record + buffer[n..];
      assert buffer == EncodeFixed(k) + EncodeTail(k) + (inside + buffer[n..]);
      HelloIsUnique(buffer, h, trailing, k, inside + buffer[n..]);
      assert false;
    }
  }

  // ---- where the name stands ----

  /** Where in a server-name list the host_name found stands. */
  function NameOffset(b: seq<byte>): nat
    requires ScanNames(b).Found?
    decreases |b|
  {
    var len := U16(b[1], b[2]);
    if b[0] == 0 then 3 else 3 + len + NameOffset(b[3 + len..])
  }

  /** Where in the extensions the host_name found stands. */
  function SniOffset(b: seq<byte>): nat
    requires ScanExtensions(b).Found?
    decreases |b|
  {
    var len := U16(b[2], b[3]);
    var body := b[4..4 + len];
    if ScanExtension(U16(b[0], b[1]), body).Exhausted? then 4 + len + SniOffset(b[4 + len..])
    else 6 + NameOffset(body[2..])
  }

  /** Where in the buffer the host_name of h stands. */
  function NamePosition(h: Hello): nat
    requires ScanExtensions(h.extensions).Found?
  {
    HelloEnd(h) - |h.extensions| + SniOffset(h.extensions)
  }

  /** The name stands at that offset. */
  lemma {:induction false} NameAtOffset(b: seq<byte>)
    requires ScanNames(b).Found?
    ensures
      var s, at := ScanNames(b).name, NameOffset(b);
      at + |s| <= |b| && b[at..at + |s|] == s
    decreases |b|
  {
    hide Utf8.Valid;
    var next := 3 + U16(b[1], b[2]);
    if b[0] != 0 {
      var tail := b[next..];
      NameAtOffset(tail);
      var s, at := ScanNames(tail).name, NameOffset(tail);
      assert tail[at..at + |s|] == b[next + at..next + at + |s|];
    }
  }

  lemma {:induction false} NameAtSniOffset(b: seq<byte>)
    requires ScanExtensions(b).Found?
    ensures
      var s, at := ScanExtensions(b).name, SniOffset(b);
      at + |s| <= |b| && b[at..at + |s|] == s
    decreases |b|
  {
    hide ScanNames, NameOffset, ScanExtension;
    var next := 4 + U16(b[2], b[3]);
    var body := b[4..next];
    if ScanExtension(U16(b[0], b[1]), body).Exhausted? {
      var tail := b[next..];
      NameAtSniOffset(tail);
      var s, at := ScanExtensions(tail).name, SniOffset(tail);
      SliceOfSlice(b, next, |b|, at, at + |s|);
      assert tail == b[next..|b|];
    } else {
      NameInBody(U16(b[0], b[1]), body);
      var s, at := ScanNames(body[2..]).name, 2 + NameOffset(body[2..]);
      SliceOfSlice(b, 4, next, at, at + |s|);
    }
  }

  lemma NameInBody(extType: nat, body: seq<byte>)
    requires ScanExtension(extType, body).Found?
    ensures |body| >= 2 && ScanNames(body[2..]) == ScanExtension(extType, body)
    ensures
      var s, at := ScanNames(body[2..]).name, 2 + NameOffset(body[2..]);
      at + |s| <= |body| && body[at..at + |s|] == s
  {
    NameAtOffset(body[2..]);
    hide ScanNames, NameOffset;
    var s, at := ScanNames(body[2..]).name, NameOffset(body[2..]);
    SliceOfSlice(body, 2, |body|, at, at + |s|);
    assert body[2..] == body[2..|body|];
  }

  /** The returned name stands in the extensions of the hello; so it lies inside the announced record whenever the
      hello does, and outside whenever the record is announced to end before the extensions. */
  lemma NameLiesInHello(buffer: seq<byte>, h: Hello, trailing: seq<byte>)
    requires HelloThen(buffer, h, trailing) && Outline(buffer).Sni?
    ensures ScanExtensions(h.extensions).Found?
    ensures
      var s, at := Outline(buffer).name, NamePosition(h);
      && HelloEnd(h) - |h.extensions| <= at && at + |s| <= HelloEnd(h) <= |buffer|
      && buffer[at..at + |s|] == s
    ensures |buffer| >= 5 && FIXED_LEN <= HelloEnd(h) - |h.extensions|
    ensures HelloEnd(h) <= RecordEnd(buffer) ==> NamePosition(h) + |Outline(buffer).name| <= RecordEnd(buffer)
    ensures RecordEnd(buffer) < HelloEnd(h) - |h.extensions| ==> NamePosition(h) > RecordEnd(buffer)
  {
    hide Outline, ScanExtensions, SniOffset, EncodeTail, EncodeFixed, HelloThen;
    OutlineOfHello(buffer, h, trailing);
    NameAtSniOffset(h.extensions);
    ExtensionsInBuffer(buffer, h, trailing);
    var s, from := Outline(buffer).name, HelloEnd(h) - |h.extensions|;
    var at := SniOffset(h.extensions);
    SliceOfSlice(buffer, from, HelloEnd(h), at, at + |s|);
  }

  lemma ExtensionsInBuffer(buffer: seq<byte>, h: Hello, trailing: seq<byte>)
    requires HelloThen(buffer, h, trailing)
    ensures FIXED_LEN + |h.extensions| <= HelloEnd(h) <= |buffer|
    ensures buffer[HelloEnd(h) - |h.extensions|..HelloEnd(h)] == h.extensions
  {
    FixedSlices(h);
    hide EncodeFixed;
    var before := Vec8(h.sessionId) + (Vec16(h.cipherSuites) + (Vec8(h.compression) + Be16(|h.extensions|)));
    assert EncodeTail(h) == before + h.extensions;
    assert buffer == EncodeFixed(h) + before + h.extensions + trailing;
  }

  // ---- a name from outside the record ----

  /** A ClientHello for one host, announced as a record of length 0. */
  function EmptyRecordHello(host: Short16): Hello
    requires |host| < 0xFF00
  {
    Hello([3, 1], 0, [0, 0, 0], [3, 3], seq(32, _ => 0), [], [], [], OneHost(host))
  }

  /** The extensions with one server_name extension that lists one host_name. */
  function OneHost(host: Short16): Short16
    requires |host| < 0xFF00
  {
    OneEntry(Entry(0, host));
    EncodeExtension(Extension(0, ServerNameBody([Entry(0, host)])))
  }

  lemma OneHostFound(host: Short16)
    requires |host| < 0xFF00 && Utf8.Valid(host)
    ensures ScanExtensions(OneHost(host)) == Found(host)
  {
    hide Utf8.Valid, ScanExtensions, ScanNames, EncodeEntry, EncodeExtension;
    var e := Entry(0, host);
    OneEntry(e);
    var x := Extension(0, ServerNameBody([e]));
    assert x.body[2..] == EncodeEntry(e) == EncodeEntry(e) + [];
    ScanEntry(e, []);
    assert OneHost(host) == EncodeExtension(x) + [];
    ScanHeadExtension(x, []);
  }

  lemma OneEntry(e: Entry)
    ensures EncodeEntries([e]) == EncodeEntry(e) && |EncodeEntry(e)| == 3 + |e.name|
  {
    assert EncodeEntries([e][1..]) == [];
  }

  /** "The name lies inside the announced record" fails: a record announced as empty yields any host that stands
      behind its five bytes, while those five bytes alone end in the index panic. */
  lemma EmptyRecordYieldsName(host: Short16)
    requires |host| < 0xFF00 && Utf8.Valid(host)
    ensures
      var h := EmptyRecordHello(host);
      var buffer := EncodeFixed(h) + EncodeTail(h);
      && Outline(buffer) == Sni(host)
      && |buffer| > 5 == RecordEnd(buffer)
      && ScanExtensions(h.extensions).Found? && NamePosition(h) > RecordEnd(buffer)
      && Outline(buffer[..5]).IndexPanic?
  {
    hide ScanExtensions, EncodeTail, EncodeFixed, OneHost, Utf8.Valid, Outline, NamePosition, HelloEnd;
    var h := EmptyRecordHello(host);
    var buffer := EncodeFixed(h) + EncodeTail(h);
    OneHostFound(host);
    assert HelloThen(buffer, h, []) by {
      EmptyRecordHolds(host);
    }
    OutlineOfHello(buffer, h, []);
    RecordEndOfHello(buffer, h, []);
    NameLiesInHello(buffer, h, []);
    FixedStart(buffer, h);
    PanicsExactly(buffer[..5]);
  }

  lemma EmptyRecordHolds(host: Short16)
    requires |host| < 0xFF00
    ensures
      var h := EmptyRecordHello(host);
      HelloThen(EncodeFixed(h) + EncodeTail(h), h, [])
  {
    hide EncodeTail, EncodeFixed, OneHost;
    var h := EmptyRecordHello(host);
    FixedSlices(h);
    assert EncodeFixed(h) + EncodeTail(h) == EncodeFixed(h) + EncodeTail(h) + [];
  }

  /** The record header of a hello. */
  lemma FixedStart(buffer: seq<byte>, h: Hello)
    requires WellSized(h) && h.recordLen == 0 && |buffer| > 5 && EncodeFixed(h) <= buffer
    ensures buffer[..5][0] == 22 && buffer[..5][3] == 0 && buffer[..5][4] == 0
  {
    FixedSlices(h);
    FixedType(h);
    hide EncodeFixed;
    var f := EncodeFixed(h);
    assert f[3] == f[3..5][0] && f[4] == f[3..5][1];
    assert U16(Be16(0)[0], Be16(0)[1]) == 0;
  }
}
