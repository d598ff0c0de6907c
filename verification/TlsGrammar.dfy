/** The ClientHello layout as a grammar (RFC 5246 section 7.4.1.2, RFC 6066 section 3) and the proof that
    the extractor answers Sni(s) exactly on the buffers in which the grammar finds s. */
module TlsGrammar {
  import opened Bytes
  import opened Tls
  import Utf8

  type Short8 = s: seq<byte> | |s| < 0x100
  type Short16 = s: seq<byte> | |s| < 0x1_0000
  type u16 = n: nat | n < 0x1_0000

  function Vec8(s: Short8): seq<byte> {
    [|s|] + s
  }

  function Vec16(s: Short16): seq<byte> {
    Be16(|s|) + s
  }

  // ---- server-name entries ----

  datatype Entry = Entry(nameType: byte, name: Short16)

  function EncodeEntry(e: Entry): seq<byte> {
    [e.nameType] + Vec16(e.name)
  }

  function EncodeEntries(es: seq<Entry>): seq<byte> {
    if |es| == 0 then [] else EncodeEntry(es[0]) + EncodeEntries(es[1..])
  }

  ghost predicate NoHostNames(es: seq<Entry>) {
    forall i :: 0 <= i < |es| ==> es[i].nameType != 0
  }

  /** b is a run of entries that are not host_names, then rest. */
  ghost predicate EntriesThen(b: seq<byte>, es: seq<Entry>, rest: seq<byte>) {
    NoHostNames(es) && b == EncodeEntries(es) + rest
  }

  /** The first host_name entry in b is s. */
  ghost predicate FirstHostName(b: seq<byte>, s: Short16) {
    exists es, rest :: EntriesThen(b, es, EncodeEntry(Entry(0, s)) + rest)
  }

  /** b is entries without a host_name, then too few bytes for an entry header. */
  ghost predicate NoHostName(b: seq<byte>) {
    exists es, rest :: EntriesThen(b, es, rest) && |rest| < 3
  }

  /** After entries without a host_name, an entry claims more bytes than are left. */
  ghost predicate EntryOverruns(b: seq<byte>) {
    exists es, rest :: EntriesThen(b, es, rest) && |rest| >= 3 && 3 + U16(rest[1], rest[2]) > |rest|
  }

  /** Skipping one entry that is not a host_name. */
  lemma ScanEntry(e: Entry, tail: seq<byte>)
    ensures e.nameType != 0 ==> ScanNames(EncodeEntry(e) + tail) == ScanNames(tail)
    ensures e.nameType == 0 ==>
      ScanNames(EncodeEntry(e) + tail) == if Utf8.Valid(e.name) then Found(e.name) else Broken(InvalidFormat)
  {
    hide Utf8.Valid;
    var b := EncodeEntry(e) + tail;
    assert b == [e.nameType] + Be16(|e.name|) + e.name + tail;
    assert U16(b[1], b[2]) == |e.name|;
    assert b[3..3 + |e.name|] == e.name && b[3 + |e.name|..] == tail;
  }

  lemma {:induction false} ScanSkips(es: seq<Entry>, tail: seq<byte>)
    requires NoHostNames(es)
    ensures ScanNames(EncodeEntries(es) + tail) == ScanNames(tail)
  {
    if |es| == 0 {
      assert EncodeEntries(es) + tail == tail;
    } else {
      assert EncodeEntries(es) + tail == EncodeEntry(es[0]) + (EncodeEntries(es[1..]) + tail);
      ScanEntry(es[0], EncodeEntries(es[1..]) + tail);
      ScanSkips(es[1..], tail);
    }
  }

  /** Reads the leading entry off b. */
  lemma HeadEntry(b: seq<byte>) returns (e: Entry, tail: seq<byte>)
    requires |b| >= 3 && 3 + U16(b[1], b[2]) <= |b|
    ensures b == EncodeEntry(e) + tail && e.nameType == b[0] && |tail| < |b|
  {
    var len := U16(b[1], b[2]);
    e := Entry(b[0], b[3..3 + len]);
    tail := b[3 + len..];
    assert Be16(len) == [b[1], b[2]];
  }

  /** Every byte string is entries without a host_name followed by a stop: a short rest, an overrun or a host_name. */
  lemma {:induction false} SplitEntries(b: seq<byte>) returns (es: seq<Entry>, rest: seq<byte>)
    ensures EntriesThen(b, es, rest)
    ensures |rest| >= 3 && 3 + U16(rest[1], rest[2]) <= |rest| ==> rest[0] == 0
    decreases |b|
  {
    if |b| < 3 || 3 + U16(b[1], b[2]) > |b| || b[0] == 0 {
      es, rest := [], b;
      assert b == EncodeEntries([]) + b;
    } else {
      var e, tail := HeadEntry(b);
      var es', rest' := SplitEntries(tail);
      es, rest := [e] + es', rest';
      assert es[1..] == es';
      assert b == EncodeEntries(es) + rest;
    }
  }

  /** The outcome of the server-name loop on b, read off the grammar; the cases exclude each other. */
  lemma NamesMeaning(b: seq<byte>)
    ensures ScanNames(b).Exhausted? <==> NoHostName(b)
    ensures ScanNames(b) == Broken(BufferTooShort) <==> EntryOverruns(b)
    ensures forall s: Short16 ::
      FirstHostName(b, s) ==> ScanNames(b) == if Utf8.Valid(s) then Found(s) else Broken(InvalidFormat)
    ensures forall s: Short16 :: ScanNames(b) == Found(s) ==> FirstHostName(b, s)
    ensures ScanNames(b) == Broken(InvalidFormat) ==> exists s: Short16 :: FirstHostName(b, s) && !Utf8.Valid(s)
    ensures ScanNames(b).Found? ==> |ScanNames(b).name| < 0x1_0000
  {
    hide Utf8.Valid;
    forall es, rest | EntriesThen(b, es, rest)
      ensures ScanNames(b) == ScanNames(rest)
    {
      ScanSkips(es, rest);
    }
    forall s: Short16, es, rest | EntriesThen(b, es, EncodeEntry(Entry(0, s)) + rest)
      ensures ScanNames(b) == if Utf8.Valid(s) then Found(s) else Broken(InvalidFormat)
    {
      ScanSkips(es, EncodeEntry(Entry(0, s)) + rest);
      ScanEntry(Entry(0, s), rest);
    }
    var es, rest := SplitEntries(b);
    if |rest| >= 3 && 3 + U16(rest[1], rest[2]) <= |rest| {
      var e, tail := HeadEntry(rest);
      assert e == Entry(0, e.name);
      assert FirstHostName(b, e.name);
    }
  }

  // ---- extensions ----

  datatype Extension = Extension(extType: u16, body: Short16)

  function EncodeExtension(x: Extension): seq<byte> {
    Be16(x.extType) + Vec16(x.body)
  }

  function EncodeExtensions(xs: seq<Extension>): seq<byte> {
    if |xs| == 0 then [] else EncodeExtension(xs[0]) + EncodeExtensions(xs[1..])
  }

  /** The search goes on past x: it is no server_name extension, or one whose list holds no host_name. */
  ghost predicate Quiet(x: Extension) {
    x.extType == 0 ==> |x.body| >= 2 && NoHostName(x.body[2..])
  }

  ghost predicate AllQuiet(xs: seq<Extension>) {
    forall i :: 0 <= i < |xs| ==> Quiet(xs[i])
  }

  ghost predicate ExtensionsThen(b: seq<byte>, xs: seq<Extension>, rest: seq<byte>) {
    AllQuiet(xs) && b == EncodeExtensions(xs) + rest
  }

  /** s is the first host_name of the first server_name extension that has one. */
  ghost predicate ServerName(b: seq<byte>, s: Short16) {
    exists xs, body: Short16, rest ::
      ExtensionsThen(b, xs, EncodeExtension(Extension(0, body)) + rest) && |body| >= 2 && FirstHostName(body[2..], s)
  }

  lemma QuietIffExhausted(x: Extension)
    ensures Quiet(x) <==> ScanExtension(x.extType, x.body).Exhausted?
  {
    if |x.body| >= 2 {
      NamesMeaning(x.body[2..]);
    }
  }

  lemma ScanHeadExtension(x: Extension, tail: seq<byte>)
    ensures ScanExtensions(EncodeExtension(x) + tail) ==
      if ScanExtension(x.extType, x.body).Exhausted? then ScanExtensions(tail) else ScanExtension(x.extType, x.body)
  {
    hide ScanExtension;
    var b := EncodeExtension(x) + tail;
    assert b == Be16(x.extType) + Be16(|x.body|) + x.body + tail;
    assert U16(b[0], b[1]) == x.extType && U16(b[2], b[3]) == |x.body|;
    assert b[4..4 + |x.body|] == x.body && b[4 + |x.body|..] == tail;
  }

  lemma {:induction false} ScanSkipsExtensions(xs: seq<Extension>, tail: seq<byte>)
    requires AllQuiet(xs)
    ensures ScanExtensions(EncodeExtensions(xs) + tail) == ScanExtensions(tail)
  {
    if |xs| == 0 {
      assert EncodeExtensions(xs) + tail == tail;
    } else {
      assert EncodeExtensions(xs) + tail == EncodeExtension(xs[0]) + (EncodeExtensions(xs[1..]) + tail);
      ScanHeadExtension(xs[0], EncodeExtensions(xs[1..]) + tail);
      QuietIffExhausted(xs[0]);
      ScanSkipsExtensions(xs[1..], tail);
    }
  }

  lemma HeadExtension(b: seq<byte>) returns (x: Extension, tail: seq<byte>)
    requires |b| >= 4 && 4 + U16(b[2], b[3]) <= |b|
    ensures b == EncodeExtension(x) + tail && |tail| < |b|
  {
    var len := U16(b[2], b[3]);
    x := Extension(U16(b[0], b[1]), b[4..4 + len]);
    tail := b[4 + len..];
    assert Be16(len) == [b[2], b[3]] && Be16(x.extType) == [b[0], b[1]];
  }

  lemma {:induction false} SplitExtensions(b: seq<byte>) returns (xs: seq<Extension>, rest: seq<byte>)
    ensures ExtensionsThen(b, xs, rest)
    ensures |rest| >= 4 && 4 + U16(rest[2], rest[3]) <= |rest| ==>
      exists x, tail :: !Quiet(x) && rest == EncodeExtension(x) + tail
    decreases |b|
  {
    hide EncodeExtension, Quiet;
    if |b| < 4 || 4 + U16(b[2], b[3]) > |b| {
      xs, rest := [], b;
      assert b == EncodeExtensions([]) + b;
    } else {
      var x, tail := HeadExtension(b);
      if Quiet(x) {
        var xs', rest' := SplitExtensions(tail);
        xs, rest := [x] + xs', rest';
        assert xs[1..] == xs';
        assert b == EncodeExtensions(xs) + rest;
      } else {
        xs, rest := [], b;
        assert b == EncodeExtensions([]) + b;
      }
    }
  }

  lemma ScanAtServerName(b: seq<byte>, xs: seq<Extension>, body: Short16, rest: seq<byte>, s: Short16)
    requires ExtensionsThen(b, xs, EncodeExtension(Extension(0, body)) + rest)
    requires |body| >= 2 && FirstHostName(body[2..], s)
    ensures ScanExtensions(b) == if Utf8.Valid(s) then Found(s) else Broken(InvalidFormat)
  {
    hide Utf8.Valid, ScanNames, EncodeExtension, ScanExtensions, FirstHostName;
    ScanSkipsExtensions(xs, EncodeExtension(Extension(0, body)) + rest);
    ScanHeadExtension(Extension(0, body), rest);
    NamesMeaning(body[2..]);
  }

  lemma ServerNameWhereFound(b: seq<byte>, s: Short16)
    requires ScanExtensions(b) == Found(s)
    ensures ServerName(b, s)
  {
    hide Utf8.Valid, ScanNames, EncodeExtension, ScanExtensions, FirstHostName, Quiet;
    var xs, rest := SplitExtensions(b);
    ScanSkipsExtensions(xs, rest);
    assert ScanExtensions(rest) == Found(s);
    FoundFits(rest);
    var x, tail :| !Quiet(x) && rest == EncodeExtension(x) + tail;
    ScanHeadExtension(x, tail);
    QuietIffExhausted(x);
    NamesMeaning(x.body[2..]);
    assert x == Extension(0, x.body);
  }

  lemma FoundFits(b: seq<byte>)
    requires ScanExtensions(b).Found?
    ensures |b| >= 4 && 4 + U16(b[2], b[3]) <= |b|
  {
  }

  /** The extension loop finds s exactly when the grammar does and s is valid UTF-8. */
  lemma ExtensionsMeaning(b: seq<byte>, s: Short16)
    ensures ScanExtensions(b) == Found(s) <==> ServerName(b, s) && Utf8.Valid(s)
    ensures ServerName(b, s) && !Utf8.Valid(s) ==> ScanExtensions(b) == Broken(InvalidFormat)
  {
    hide Utf8.Valid, ScanExtensions, ExtensionsThen, FirstHostName;
    if ServerName(b, s) {
      var xs, body: Short16, rest :|
        ExtensionsThen(b, xs, EncodeExtension(Extension(0, body)) + rest) && |body| >= 2 && FirstHostName(body[2..], s);
      ScanAtServerName(b, xs, body, rest, s);
    } else if ScanExtensions(b) == Found(s) {
      ServerNameWhereFound(b, s);
    }
  }

  // ---- the whole record ----

  datatype Hello = Hello(
    recordVersion: seq<byte>, recordLen: u16,
    handshakeLen: seq<byte>, clientVersion: seq<byte>, random: seq<byte>,
    sessionId: Short8, cipherSuites: Short16, compression: Short8, extensions: Short16)

  predicate WellSized(h: Hello) {
    |h.recordVersion| == 2 && |h.handshakeLen| == 3 && |h.clientVersion| == 2 && |h.random| == 32
  }

  function EncodeFixed(h: Hello): seq<byte> {
    [22] + h.recordVersion + Be16(h.recordLen) + [1] + h.handshakeLen + h.clientVersion + h.random
  }

  function EncodeTail(h: Hello): seq<byte> {
    Vec8(h.sessionId) + (Vec16(h.cipherSuites) + (Vec8(h.compression) + Vec16(h.extensions)))
  }

  /** buffer is the bytes of h, then anything. The record length that h announces has to fit the buffer; where it ends
      and the handshake length are free, as in the parser (see TlsRecord). */
  ghost predicate HelloThen(buffer: seq<byte>, h: Hello, trailing: seq<byte>) {
    WellSized(h) && buffer == EncodeFixed(h) + EncodeTail(h) + trailing && 5 + h.recordLen <= |buffer|
  }

  lemma TakeVec8Encoded(s: Short8, rest: seq<byte>)
    ensures TakeVec8(Vec8(s) + rest) == Some((s, rest))
  {
    var b := Vec8(s) + rest;
    assert b[1..1 + |s|] == s && b[1 + |s|..] == rest;
  }

  lemma TakeVec16Encoded(s: Short16, rest: seq<byte>)
    ensures TakeVec16(Vec16(s) + rest) == Some((s, rest))
  {
    var b := Vec16(s) + rest;
    assert b == Be16(|s|) + s + rest;
    assert b[2..2 + |s|] == s && b[2 + |s|..] == rest;
  }

  lemma TakenVec8(b: seq<byte>)
    requires TakeVec8(b).Some?
    ensures |TakeVec8(b).value.0| < 0x100 && b == Vec8(TakeVec8(b).value.0) + TakeVec8(b).value.1
  {
  }

  lemma TakenVec16(b: seq<byte>)
    requires TakeVec16(b).Some?
    ensures |TakeVec16(b).value.0| < 0x1_0000 && b == Vec16(TakeVec16(b).value.0) + TakeVec16(b).value.1
  {
    assert Be16(U16(b[0], b[1])) == [b[0], b[1]];
  }

  lemma AfterRandomOfTail(h: Hello, trailing: seq<byte>)
    ensures AfterRandom(EncodeTail(h) + trailing) == Verdict(ScanExtensions(h.extensions))
  {
    hide TakeVec8, TakeVec16, ScanExtensions;
    var r3 := Vec16(h.extensions) + trailing;
    var r2 := Vec8(h.compression) + r3;
    var r1 := Vec16(h.cipherSuites) + r2;
    assert EncodeTail(h) + trailing == Vec8(h.sessionId) + r1;
    TakeVec8Encoded(h.sessionId, r1);
    TakeVec16Encoded(h.cipherSuites, r2);
    TakeVec8Encoded(h.compression, r3);
    TakeVec16Encoded(h.extensions, trailing);
  }

  lemma OutlineOfHello(buffer: seq<byte>, h: Hello, trailing: seq<byte>)
    requires HelloThen(buffer, h, trailing)
    ensures Outline(buffer) == Verdict(ScanExtensions(h.extensions))
  {
    hide AfterRandom, ScanExtensions;
    var tail := EncodeTail(h) + trailing;
    assert |tail| > 0;
    assert buffer == EncodeFixed(h) + tail;
    assert |EncodeFixed(h)| == FIXED_LEN;
    assert buffer[3] == Be16(h.recordLen)[0] && buffer[4] == Be16(h.recordLen)[1] && buffer[5] == 1;
    assert buffer[FIXED_LEN..] == tail;
    AfterRandomOfTail(h, trailing);
  }

  /** Recovers the vectors from the bytes after the random. */
  lemma SplitTail(b: seq<byte>) returns (h: Hello, trailing: seq<byte>)
    requires AfterRandom(b).Sni?
    ensures b == EncodeTail(h) + trailing
  {
    hide TakeVec8, TakeVec16, ScanExtensions;
    TakenVec8(b);
    var (sessionId, r1) := TakeVec8(b).value;
    TakenVec16(r1);
    var (cipherSuites, r2) := TakeVec16(r1).value;
    TakenVec8(r2);
    var (compression, r3) := TakeVec8(r2).value;
    TakenVec16(r3);
    var (extensions, rest) := TakeVec16(r3).value;
    trailing := rest;
    h := Hello([], 0, [], [], [], sessionId, cipherSuites, compression, extensions);
    calc {
      b;
      Vec8(sessionId) + (Vec16(cipherSuites) + (Vec8(compression) + (Vec16(extensions) + rest)));
      EncodeTail(h) + rest;
    }
  }

  lemma SplitHello(buffer: seq<byte>) returns (h: Hello, trailing: seq<byte>)
    requires Outline(buffer).Sni?
    ensures HelloThen(buffer, h, trailing)
  {
    hide AfterRandom, EncodeTail;
    var v, rest := SplitTail(buffer[FIXED_LEN..]);
    trailing := rest;
    h := FixedFields(buffer, v);
    assert buffer == buffer[..FIXED_LEN] + buffer[FIXED_LEN..];
  }

  /** v with the fields before the session id read from the first 43 bytes. */
  lemma FixedFields(buffer: seq<byte>, v: Hello) returns (h: Hello)
    requires |buffer| > FIXED_LEN && buffer[0] == 22 && buffer[5] == 1
    ensures WellSized(h) && EncodeFixed(h) == buffer[..FIXED_LEN] && h.recordLen == U16(buffer[3], buffer[4])
    ensures EncodeTail(h) == EncodeTail(v)
  {
    h := v.(recordVersion := buffer[1..3], recordLen := U16(buffer[3], buffer[4]),
            handshakeLen := buffer[6..9], clientVersion := buffer[9..11], random := buffer[11..FIXED_LEN]);
    hide EncodeTail;
    assert Be16(h.recordLen) == buffer[3..5];
    SplitFixed(buffer);
    TailFields(h, v);
  }

  lemma TailFields(h: Hello, v: Hello)
    requires h.sessionId == v.sessionId && h.cipherSuites == v.cipherSuites
    requires h.compression == v.compression && h.extensions == v.extensions
    ensures EncodeTail(h) == EncodeTail(v)
  {
  }

  lemma SplitFixed(b: seq<byte>)
    requires |b| > FIXED_LEN
    ensures b[..FIXED_LEN] ==
      [b[0]] + b[1..3] + b[3..5] + [b[5]] + b[6..9] + b[9..11] + b[11..FIXED_LEN]
  {
    assert b[..6] == [b[0]] + b[1..3] + b[3..5] + [b[5]];
    assert b[..FIXED_LEN] == b[..6] + b[6..9] + b[9..11] + b[11..FIXED_LEN];
  }

  /** Sound and complete: the parser returns s exactly when the buffer starts with the layout of a ClientHello, whatever
      lengths it announces within the buffer, in which the grammar finds the server name s, and s is valid UTF-8. */
  lemma ParsesExactlyTheGrammar(buffer: seq<byte>, s: Short16)
    ensures Outline(buffer) == Sni(s) <==>
      Utf8.Valid(s) && exists h, trailing :: HelloThen(buffer, h, trailing) && ServerName(h.extensions, s)
  {
    hide Outline, ScanExtensions, Utf8.Valid, HelloThen, ServerName;
    if Outline(buffer) == Sni(s) {
      var h, trailing := SplitHello(buffer);
      OutlineOfHello(buffer, h, trailing);
      ExtensionsMeaning(h.extensions, s);
    }
    forall h, trailing | HelloThen(buffer, h, trailing) && ServerName(h.extensions, s) && Utf8.Valid(s)
      ensures Outline(buffer) == Sni(s)
    {
      OutlineOfHello(buffer, h, trailing);
      ExtensionsMeaning(h.extensions, s);
    }
  }

  /** A returned name is always a short valid string, so ParsesExactlyTheGrammar covers every Sni answer. */
  lemma NamesAreShort(buffer: seq<byte>)
    requires Outline(buffer).Sni?
    ensures |Outline(buffer).name| < 0x1_0000
  {
    hide Outline, ScanExtensions;
    var h, trailing := SplitHello(buffer);
    OutlineOfHello(buffer, h, trailing);
    FoundIsShort(h.extensions);
  }

  lemma {:induction false} FoundIsShort(b: seq<byte>)
    requires ScanExtensions(b).Found?
    ensures |ScanExtensions(b).name| < 0x1_0000
    decreases |b|
  {
    var len := U16(b[2], b[3]);
    var body := b[4..4 + len];
    if ScanExtension(U16(b[0], b[1]), body).Exhausted? {
      FoundIsShort(b[4 + len..]);
    } else {
      NamesMeaning(body[2..]);
    }
  }

  // ---- encoding a whole ClientHello ----

  lemma {:induction false} EncodeEntriesAppend(a: seq<Entry>, b: seq<Entry>)
    ensures EncodeEntries(a + b) == EncodeEntries(a) + EncodeEntries(b)
  {
    if |a| == 0 {
      assert a + b == b;
    } else {
      assert (a + b)[1..] == a[1..] + b;
      EncodeEntriesAppend(a[1..], b);
    }
  }

  lemma {:induction false} EncodeExtensionsAppend(a: seq<Extension>, b: seq<Extension>)
    ensures EncodeExtensions(a + b) == EncodeExtensions(a) + EncodeExtensions(b)
  {
    if |a| == 0 {
      assert a + b == b;
    } else {
      assert (a + b)[1..] == a[1..] + b;
      EncodeExtensionsAppend(a[1..], b);
    }
  }

  lemma EncodeOneExtension(x: Extension)
    ensures EncodeExtensions([x]) == EncodeExtension(x)
  {
    assert EncodeExtensions([x][1..]) == [];
  }

  /** What a server_name extension carries: the list length, then the list. */
  function ServerNameBody(entries: seq<Entry>): seq<byte>
    requires |EncodeEntries(entries)| < 0x1_0000
  {
    Vec16(EncodeEntries(entries))
  }

  /** Round trip: a ClientHello with any fields, any extensions before that hold no host_name, any other
      entries before the host_name, and anything after, parses back to that host_name. */
  lemma RoundTrip(h: Hello, before: seq<Extension>, after: seq<Extension>,
                  others: seq<Entry>, host: Short16, more: seq<Entry>, trailing: seq<byte>)
    requires WellSized(h) && h.recordLen == |EncodeFixed(h)| - 5 + |EncodeTail(h)|
    requires AllQuiet(before)
    requires NoHostNames(others)
    requires
      var entries := others + [Entry(0, host)] + more;
      |EncodeEntries(entries)| < 0xFFFE &&
      h.extensions == EncodeExtensions(before + [Extension(0, ServerNameBody(entries))] + after)
    ensures Outline(EncodeFixed(h) + EncodeTail(h) + trailing) ==
      if Utf8.Valid(host) then Sni(host) else Fail(InvalidFormat)
  {
    hide Outline, ScanExtensions, Utf8.Valid, ServerName, EncodeFixed, EncodeTail, EncodeEntries, EncodeExtensions;
    ServerNameAmong(before, others, host, more, after);
    ExtensionsMeaning(h.extensions, host);
    OutlineOfHello(EncodeFixed(h) + EncodeTail(h) + trailing, h, trailing);
  }

  lemma ServerNameAmong(before: seq<Extension>, others: seq<Entry>, host: Short16, more: seq<Entry>,
                        after: seq<Extension>)
    requires AllQuiet(before)
    requires NoHostNames(others)
    requires |EncodeEntries(others + [Entry(0, host)] + more)| < 0xFFFE
    ensures
      var entries := others + [Entry(0, host)] + more;
      var all := EncodeExtensions(before + [Extension(0, ServerNameBody(entries))] + after);
      |all| < 0x1_0000 ==> ServerName(all, host)
  {
    hide EncodeEntries, EncodeExtensions, EncodeExtension, FirstHostName, ExtensionsThen, AllQuiet;
    var entries := others + [Entry(0, host)] + more;
    var body: Short16 := ServerNameBody(entries);
    assert body[2..] == EncodeEntries(entries);
    HostNameAmong(others, host, more);
    SniAmong(before, body, after);
  }

  lemma HostNameAmong(others: seq<Entry>, host: Short16, more: seq<Entry>)
    requires NoHostNames(others)
    ensures FirstHostName(EncodeEntries(others + [Entry(0, host)] + more), host)
  {
    var e := Entry(0, host);
    EncodeEntriesAppend(others + [e], more);
    EncodeEntriesAppend(others, [e]);
    assert EncodeEntries([e]) == EncodeEntry(e) + EncodeEntries([e][1..]) == EncodeEntry(e);
    assert EncodeEntries(others + [e] + more)
        == EncodeEntries(others) + (EncodeEntry(e) + EncodeEntries(more));
    assert EntriesThen(EncodeEntries(others + [e] + more), others, EncodeEntry(e) + EncodeEntries(more));
  }

  lemma SniAmong(before: seq<Extension>, body: Short16, after: seq<Extension>)
    requires AllQuiet(before)
    ensures
      ExtensionsThen(EncodeExtensions(before + [Extension(0, body)] + after), before,
                     EncodeExtension(Extension(0, body)) + EncodeExtensions(after))
  {
    hide EncodeExtension, EncodeExtensions, AllQuiet;
    var x := Extension(0, body);
    EncodeExtensionsAppend(before + [x], after);
    EncodeExtensionsAppend(before, [x]);
    EncodeOneExtension(x);
    var at := EncodeExtension(x);
    assert EncodeExtensions(before + [x] + after) == EncodeExtensions(before) + (at + EncodeExtensions(after));
  }

  // ---- short buffers ----

  /** The one out-of-range index: a five-byte handshake record of length zero. */
  lemma PanicsExactly(buffer: seq<byte>)
    ensures Outline(buffer).IndexPanic? <==> |buffer| == 5 && buffer[0] == 22 && buffer[3] == 0 && buffer[4] == 0
  {
    hide AfterRandom;
    if |buffer| > FIXED_LEN {
      AfterRandomNeverPanics(buffer[FIXED_LEN..]);
    }
  }

  lemma AfterRandomNeverPanics(b: seq<byte>)
    ensures !AfterRandom(b).IndexPanic?
  {
  }

  /** A record cut anywhere before its announced end is reported as too short, never as malformed. */
  lemma TruncationIsTooShort(buffer: seq<byte>, n: nat)
    requires |buffer| >= 5 && buffer[0] == 22 && n < 5 + U16(buffer[3], buffer[4]) && n <= |buffer|
    ensures Outline(buffer[..n]) == Fail(BufferTooShort)
  {
    hide AfterRandom;
  }

  /** Bytes appended to the buffer never change a name that was found. */
  lemma TrailingBytesIgnored(buffer: seq<byte>, more: seq<byte>)
    requires Outline(buffer).Sni?
    ensures Outline(buffer + more) == Outline(buffer)
  {
    hide Outline, ScanExtensions;
    var h, trailing := SplitHello(buffer);
    OutlineOfHello(buffer, h, trailing);
    assert buffer + more == EncodeFixed(h) + EncodeTail(h) + (trailing + more);
    OutlineOfHello(buffer + more, h, trailing + more);
  }

  // ---- errors of a whole ClientHello ----

  /** What a ClientHello without a valid name reports: behind extensions that hold no host_name, the end of the list
      or too few bytes for a header, or an extension that overruns; or a server_name extension that is too short, or
      in which an entry overruns, or whose first host_name is not UTF-8. */
  lemma ErrorsOfHello(buffer: seq<byte>, h: Hello, trailing: seq<byte>, xs: seq<Extension>, rest: seq<byte>,
                      body: Short16, s: Short16)
    requires HelloThen(buffer, h, trailing)
    ensures ExtensionsThen(h.extensions, xs, rest) ==>
      && (|rest| < 4 ==> Outline(buffer) == Fail(InvalidFormat))
      && (|rest| >= 4 && 4 + U16(rest[2], rest[3]) > |rest| ==> Outline(buffer) == Fail(BufferTooShort))
    ensures ExtensionsThen(h.extensions, xs, EncodeExtension(Extension(0, body)) + rest) ==>
      && (|body| < 2 ==> Outline(buffer) == Fail(InvalidFormat))
      && (|body| >= 2 && EntryOverruns(body[2..]) ==> Outline(buffer) == Fail(BufferTooShort))
      && (|body| >= 2 && FirstHostName(body[2..], s) && !Utf8.Valid(s) ==> Outline(buffer) == Fail(InvalidFormat))
  {
    hide Outline, HelloThen, ScanNames, EncodeExtension, Utf8.Valid, FirstHostName, EntryOverruns, AllQuiet;
    OutlineOfHello(buffer, h, trailing);
    if ExtensionsThen(h.extensions, xs, rest) {
      ScanSkipsExtensions(xs, rest);
    }
    if ExtensionsThen(h.extensions, xs, EncodeExtension(Extension(0, body)) + rest) {
      ScanSkipsExtensions(xs, EncodeExtension(Extension(0, body)) + rest);
      hide ScanExtensions;
      ScanHeadExtension(Extension(0, body), rest);
      if |body| >= 2 {
        NamesMeaning(body[2..]);
      }
    }
  }
}
