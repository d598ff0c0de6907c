/** The server-name extractor for TLS ClientHello records: the parser and what it computes. */
module Tls {
  import opened Bytes
  import Utf8

  /** What a call ends with; IndexPanic is Rust's out-of-range index. */
  datatype Outcome = Sni(name: seq<byte>) | Fail(error: ParseError) | IndexPanic

  /** What scanning a list of entries ends with. */
  datatype Scan = Found(name: seq<byte>) | Broken(error: ParseError) | Exhausted

  /** The server-name entries in b, up to the first host_name (type 0). */
  function ScanNames(b: seq<byte>): Scan
    decreases |b|
  {
    if |b| < 3 then Exhausted
    else
      var len := U16(b[1], b[2]);
      if 3 + len > |b| then Broken(BufferTooShort)
      else if b[0] == 0 then
        if Utf8.Valid(b[3..3 + len]) then Found(b[3..3 + len]) else Broken(InvalidFormat)
      else ScanNames(b[3 + len..])
  }

  /** The body of one extension; only type 0 is looked into, past its two-byte list length. */
  function ScanExtension(extType: nat, body: seq<byte>): Scan {
    if extType != 0 then Exhausted
    else if |body| < 2 then Broken(InvalidFormat)
    else ScanNames(body[2..])
  }

  function ScanExtensions(b: seq<byte>): Scan
    decreases |b|
  {
    if |b| < 4 then Exhausted
    else
      var len := U16(b[2], b[3]);
      if 4 + len > |b| then Broken(BufferTooShort)
      else
        var scan := ScanExtension(U16(b[0], b[1]), b[4..4 + len]);
        if scan.Exhausted? then ScanExtensions(b[4 + len..]) else scan
  }

  /** A vector with a one-byte length prefix, split off the front of b. */
  function TakeVec8(b: seq<byte>): Option<(seq<byte>, seq<byte>)> {
    if |b| >= 1 && 1 + b[0] <= |b| then Some((b[1..1 + b[0]], b[1 + b[0]..])) else None
  }

  /** A vector with a two-byte length prefix, split off the front of b. */
  function TakeVec16(b: seq<byte>): Option<(seq<byte>, seq<byte>)> {
    if |b| >= 2 && 2 + U16(b[0], b[1]) <= |b|
    then Some((b[2..2 + U16(b[0], b[1])], b[2 + U16(b[0], b[1])..])) else None
  }

  lemma TakeVec8Window(b: seq<byte>, lo: nat)
    requires lo < |b|
    ensures
      var hi := lo + 1 + b[lo];
      TakeVec8(b[lo..]) == if hi <= |b| then Some((b[lo + 1..hi], b[hi..])) else None
  {
    var hi := lo + 1 + b[lo];
    if hi <= |b| {
      assert b[lo..][1..1 + b[lo]] == b[lo + 1..hi];
      assert b[lo..][1 + b[lo]..] == b[hi..];
    }
  }

  lemma TakeVec16Window(b: seq<byte>, lo: nat)
    requires lo <= |b|
    ensures TakeVec16(b[lo..]) ==
      if lo + 2 > |b| then None
      else
        var hi := lo + 2 + U16(b[lo], b[lo + 1]);
        if hi <= |b| then Some((b[lo + 2..hi], b[hi..])) else None
  {
    if lo + 2 <= |b| {
      var n := U16(b[lo], b[lo + 1]);
      assert b[lo..][0] == b[lo] && b[lo..][1] == b[lo + 1];
      if lo + 2 + n <= |b| {
        assert b[lo..][2..2 + n] == b[lo + 2..lo + 2 + n];
        assert b[lo..][2 + n..] == b[lo + 2 + n..];
      }
    }
  }

  function Verdict(scan: Scan): Outcome {
    match scan
    case Found(name) => Sni(name)
    case Broken(error) => Fail(error)
    case Exhausted => Fail(InvalidFormat)
  }

  /** What follows the 32-byte random: session id, cipher suites, compression methods, extensions. */
  function AfterRandom(b: seq<byte>): Outcome {
    match TakeVec8(b)
    case None => Fail(BufferTooShort)
    case Some((sessionId, r1)) =>
      match TakeVec16(r1)
      case None => Fail(BufferTooShort)
      case Some((cipherSuites, r2)) =>
        if |r2| == 0 then Fail(BufferTooShort)
        else
          match TakeVec8(r2)
          case None => Fail(InvalidFormat)
          case Some((compression, r3)) =>
            if |r3| < 2 then Fail(InvalidFormat)
            else
              match TakeVec16(r3)
              case None => Fail(BufferTooShort)
              case Some((extensions, trailing)) => Verdict(ScanExtensions(extensions))
  }

  /** Content type, versions, lengths and random: everything before the session id. */
  const FIXED_LEN: nat := 43

  function Outline(b: seq<byte>): Outcome {
    if |b| < 5 then Fail(BufferTooShort)
    else if b[0] != 22 then Fail(InvalidFormat)
    else if |b| < 5 + U16(b[3], b[4]) then Fail(BufferTooShort)
    else if |b| == 5 then IndexPanic
    else if b[5] != 1 then Fail(InvalidFormat)
    else if |b| <= FIXED_LEN then Fail(BufferTooShort)
    else AfterRandom(b[FIXED_LEN..])
  }

  /** TlsClientHello::parse. */
  method Parse(buffer: seq<byte>) returns (outcome: Outcome)
    ensures outcome == Outline(buffer)
  {
    hide TakeVec8, TakeVec16, ScanExtensions;
    if |buffer| < 5 {
      return Fail(BufferTooShort);
    }
    if buffer[0] != 22 {
      return Fail(InvalidFormat);
    }
    var recordLen := U16(buffer[3], buffer[4]);
    if |buffer| < 5 + recordLen {
      return Fail(BufferTooShort);
    }
    var offset: nat := 5;
    if offset >= |buffer| {
      return IndexPanic; // buffer[offset] is out of range
    }
    if buffer[offset] != 1 {
      return Fail(InvalidFormat);
    }
    offset := offset + 4;
    offset := offset + 2;
    offset := offset + 32;
    if offset >= |buffer| {
      return Fail(BufferTooShort);
    }
    var sessionIdLen := buffer[offset];
    TakeVec8Window(buffer, offset);
    offset := offset + 1 + sessionIdLen;
    if offset <= |buffer| {
      TakeVec16Window(buffer, offset);
    }
    if offset + 2 > |buffer| {
      return Fail(BufferTooShort);
    }
    var cipherSuitesLen := U16(buffer[offset], buffer[offset + 1]);
    offset := offset + 2 + cipherSuitesLen;
    if offset + 1 > |buffer| {
      return Fail(BufferTooShort);
    }
    var compressionLen := buffer[offset];
    TakeVec8Window(buffer, offset);
    offset := offset + 1 + compressionLen;
    if offset + 2 > |buffer| {
      return Fail(InvalidFormat);
    }
    var extensionsLen := U16(buffer[offset], buffer[offset + 1]);
    TakeVec16Window(buffer, offset);
    offset := offset + 2;
    var extensionsEnd := offset + extensionsLen;
    if extensionsEnd > |buffer| {
      return Fail(BufferTooShort);
    }
    var scan := WalkExtensions(buffer, offset, extensionsEnd);
    outcome := Verdict(scan);
  }

  /** One turn of the extension loop, in buffer positions. */
  lemma ExtensionsWindow(buffer: seq<byte>, lo: nat, hi: nat)
    requires lo + 4 <= hi <= |buffer|
    ensures
      var extType, len := U16(buffer[lo], buffer[lo + 1]), U16(buffer[lo + 2], buffer[lo + 3]);
      ScanExtensions(buffer[lo..hi]) ==
        if lo + 4 + len > hi then Broken(BufferTooShort)
        else
          var scan := ScanExtension(extType, buffer[lo + 4..lo + 4 + len]);
          if scan.Exhausted? then ScanExtensions(buffer[lo + 4 + len..hi]) else scan
  {
    hide ScanExtension;
    var b := buffer[lo..hi];
    var len := U16(buffer[lo + 2], buffer[lo + 3]);
    assert b[0] == buffer[lo] && b[1] == buffer[lo + 1] && b[2] == buffer[lo + 2] && b[3] == buffer[lo + 3];
    if lo + 4 + len <= hi {
      SliceOfSlice(buffer, lo, hi, 4, 4 + len);
      SliceOfSlice(buffer, lo, hi, 4 + len, hi - lo);
      assert b[4 + len..] == b[4 + len..|b|];
    }
  }

  lemma ExtensionsEnd(b: seq<byte>)
    requires |b| < 4
    ensures ScanExtensions(b) == Exhausted
  {
  }

  /** One turn of the server-name loop, in buffer positions. */
  lemma NamesWindow(buffer: seq<byte>, lo: nat, hi: nat)
    requires lo <= hi <= |buffer|
    ensures ScanNames(buffer[lo..hi]) ==
      if lo + 3 > hi then Exhausted
      else
        var len := U16(buffer[lo + 1], buffer[lo + 2]);
        if lo + 3 + len > hi then Broken(BufferTooShort)
        else
          var name := buffer[lo + 3..lo + 3 + len];
          if buffer[lo] != 0 then ScanNames(buffer[lo + 3 + len..hi])
          else if Utf8.Valid(name) then Found(name) else Broken(InvalidFormat)
  {
    hide Utf8.Valid;
    var b := buffer[lo..hi];
    if lo + 3 <= hi {
      var len := U16(buffer[lo + 1], buffer[lo + 2]);
      assert b[0] == buffer[lo] && b[1] == buffer[lo + 1] && b[2] == buffer[lo + 2];
      if lo + 3 + len <= hi {
        SliceOfSlice(buffer, lo, hi, 3, 3 + len);
        SliceOfSlice(buffer, lo, hi, 3 + len, hi - lo);
        assert b[3 + len..] == b[3 + len..|b|];
      }
    }
  }

  /** The extension loop. */
  method WalkExtensions(buffer: seq<byte>, start: nat, extensionsEnd: nat) returns (scan: Scan)
    requires start <= extensionsEnd <= |buffer|
    ensures scan == ScanExtensions(buffer[start..extensionsEnd])
  {
    hide ScanExtensions, ScanNames;
    var offset := start;
    while offset + 4 <= extensionsEnd
      invariant start <= offset <= extensionsEnd
      invariant ScanExtensions(buffer[start..extensionsEnd]) == ScanExtensions(buffer[offset..extensionsEnd])
      decreases extensionsEnd - offset
    {
      ExtensionsWindow(buffer, offset, extensionsEnd);
      var extType := U16(buffer[offset], buffer[offset + 1]);
      var extLen := U16(buffer[offset + 2], buffer[offset + 3]);
      offset := offset + 4;
      if offset + extLen > extensionsEnd {
        return Broken(BufferTooShort);
      }
      if extType == 0 {
        if extLen < 2 {
          return Broken(InvalidFormat);
        }
        SliceOfSlice(buffer, offset, offset + extLen, 2, extLen);
        var names := WalkNames(buffer, offset + 2, offset + extLen);
        if !names.Exhausted? {
          return names;
        }
      }
      offset := offset + extLen;
    }
    ExtensionsEnd(buffer[offset..extensionsEnd]);
    scan := Exhausted;
  }

  /** The server-name loop inside one extension. */
  method WalkNames(buffer: seq<byte>, start: nat, sniEnd: nat) returns (scan: Scan)
    requires start <= sniEnd <= |buffer|
    ensures scan == ScanNames(buffer[start..sniEnd])
  {
    hide *;
    var sniOffset := start;
    while sniOffset + 3 <= sniEnd
      invariant start <= sniOffset <= sniEnd
      invariant ScanNames(buffer[start..sniEnd]) == ScanNames(buffer[sniOffset..sniEnd])
      decreases sniEnd - sniOffset
    {
      NamesWindow(buffer, sniOffset, sniEnd);
      var nameType := buffer[sniOffset];
      var nameLen := U16(buffer[sniOffset + 1], buffer[sniOffset + 2]);
      sniOffset := sniOffset + 3;
      if sniOffset + nameLen > sniEnd {
        return Broken(BufferTooShort);
      }
      if nameType == 0 {
        var hostname := buffer[sniOffset..sniOffset + nameLen];
        if Utf8.Valid(hostname) {
          return Found(hostname);
        } else {
          return Broken(InvalidFormat);
        }
      }
      sniOffset := sniOffset + nameLen;
    }
    NamesWindow(buffer, sniOffset, sniEnd);
    scan := Exhausted;
  }
}
