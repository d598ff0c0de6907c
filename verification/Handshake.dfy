/** The WebSocket accept key: SHA-1 and Base64 put together (section 4.2.2 of RFC 6455). */
module Handshake {
  import opened Bytes
  import Base64
  import Sha1
  import Sha1Sample

  const GUID: string := "258EAFA5-E914-47" + "DA-95CA-C5AB0DC85B11"

  function Accept(key: seq<byte>): string {
    Base64.Encode(Sha1.Digest(key + AsciiBytes(GUID)))
  }

  /** The Sec-WebSocket-Accept value for a client's key. */
  method AcceptKey(key: seq<byte>) returns (accept: string)
    ensures accept == Accept(key)
  {
    var concat := key + AsciiBytes(GUID);
    var hashed := Sha1.Compute(concat);
    accept := Base64.Base64Encode(hashed);
  }

  /** The value is 28 characters and carries the whole digest. */
  lemma AcceptCarriesDigest(key: seq<byte>)
    ensures |Accept(key)| == 28
    ensures Base64.Decode(Accept(key)) == Some(Sha1.Digest(key + AsciiBytes(GUID)))
  {
    hide *;
    AcceptIsEncoded(key);
    Base64.RoundTrip(Sha1.Digest(key + AsciiBytes(GUID)));
  }

  lemma AcceptIsEncoded(key: seq<byte>)
    ensures Accept(key) == Base64.Encode(Sha1.Digest(key + AsciiBytes(GUID)))
  {
    hide Base64.Encode, Sha1.Digest, AsciiBytes;
  }

  /** A group of bytes and its four characters. */
  lemma Group(b: seq<byte>, q: string)
    requires |q| == 4 && Base64.DecodeLast(q) == Some(b)
    ensures Base64.Encode(b) == q
  {
    hide Base64.Encode;
    Base64.OnlyEncodingsDecode(q);
  }

  lemma GroupThen(b: seq<byte>, rest: seq<byte>)
    requires |b| == 3
    ensures Base64.Encode(b + rest) == Base64.Encode(b) + Base64.Encode(rest)
  {
    hide Base64.Encode, Base64.Encode3;
    assert (b + rest)[3..] == rest && b[3..] == [];
    Base64.EncodeCases(b + rest);
    Base64.EncodeCases(b);
    Base64.EncodeCases([]);
  }

  /** The last eleven bytes of the sample's digest, and the nine before them. */
  const TAIL: seq<byte> := [0xf6, 0x46, 0x06, 0xcf, 0x38, 0x59, 0x45, 0xb2, 0xbe, 0xc4, 0xea]
  const HEAD: seq<byte> := [0xb3, 0x7a, 0x4f, 0x2c, 0xc0, 0x62, 0x4f, 0x16, 0x90]

  lemma FirstGroups()
    ensures Base64.Encode([0xb3, 0x7a, 0x4f]) == "s3pP"
    ensures Base64.Encode([0x2c, 0xc0, 0x62]) == "LMBi"
    ensures Base64.Encode([0x4f, 0x16, 0x90]) == "TxaQ"
  {
    hide Base64.Encode;
    Group([0xb3, 0x7a, 0x4f], "s3pP");
    Group([0x2c, 0xc0, 0x62], "LMBi");
    Group([0x4f, 0x16, 0x90], "TxaQ");
  }

  lemma MiddleGroups()
    ensures Base64.Encode([0xf6, 0x46, 0x06]) == "9kYG"
    ensures Base64.Encode([0xcf, 0x38, 0x59]) == "zzhZ"
  {
    hide Base64.Encode;
    Group([0xf6, 0x46, 0x06], "9kYG");
    Group([0xcf, 0x38, 0x59], "zzhZ");
  }

  lemma LastGroups()
    ensures Base64.Encode([0x45, 0xb2, 0xbe]) == "RbK+"
    ensures Base64.Encode([0xc4, 0xea]) == "xOo="
  {
    hide Base64.Encode;
    Group([0x45, 0xb2, 0xbe], "RbK+");
    Group([0xc4, 0xea], "xOo=");
  }

  lemma SampleTail()
    ensures Base64.Encode(TAIL) == "9kYGzzhZRbK+xOo="
  {
    hide Base64.Encode;
    MiddleGroups();
    LastGroups();
    var g, h, i := [0xf6, 0x46, 0x06], [0xcf, 0x38, 0x59], [0x45, 0xb2, 0xbe];
    GroupThen(g, h + (i + [0xc4, 0xea]));
    GroupThen(h, i + [0xc4, 0xea]);
    GroupThen(i, [0xc4, 0xea]);
    assert TAIL == g + (h + (i + [0xc4, 0xea]));
  }

  lemma SampleHead(rest: seq<byte>)
    ensures Base64.Encode(HEAD + rest) == "s3pPLMBiTxaQ" + Base64.Encode(rest)
  {
    hide Base64.Encode;
    FirstGroups();
    var g, h, i := [0xb3, 0x7a, 0x4f], [0x2c, 0xc0, 0x62], [0x4f, 0x16, 0x90];
    GroupThen(g, h + (i + rest));
    GroupThen(h, i + rest);
    GroupThen(i, rest);
    assert HEAD + rest == g + (h + (i + rest));
  }

  /** The sample handshake of section 1.3 of RFC 6455, byte for byte: it fixes the GUID, every constant of SHA-1 and the
      order of all bytes. */
  lemma SampleAccept()
    ensures Accept(AsciiBytes("dGhlIHNhbXBsZSBub25jZQ==")) == "s3pPLMBiTxaQ9kYGzzhZRbK+xOo="
  {
    hide Base64.Encode, Sha1.Digest, AsciiBytes, Sha1Sample.Sample;
    AcceptIsEncoded(AsciiBytes("dGhlIHNhbXBsZSBub25jZQ=="));
    SampleHashed();
    Sha1Sample.SampleDigest();
    assert Sha1.Digest(Sha1Sample.Sample()) == HEAD + TAIL;
    SampleHead(TAIL);
    SampleTail();
  }

  lemma SampleHashed()
    ensures AsciiBytes("dGhlIHNhbXBsZSBub25jZQ==") + AsciiBytes(GUID) == Sha1Sample.Sample()
  {
  }
}
