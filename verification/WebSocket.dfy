/** Text frames of section 5.2 of RFC 6455: the encoder and a decoder for what a client receives. */
module WebSocket {
  import opened Bytes

  /** The bytes of a Rust string, whose length is below 2^63. */
  type Text = s: seq<byte> | |s| < 0x8000_0000_0000_0000

  function LengthField(n: nat): seq<byte> {
    if n <= 125 then [n]
    else if n <= 65535 then [126] + ToBe(n, 2)
    else [127] + ToBe(n, 8)
  }

  function Encode(payload: seq<byte>): (frame: seq<byte>)
    ensures |frame| >= 2
  {
    [0x81] + LengthField(|payload|) + payload
  }

  /** encode_ws_text_frame. */
  method EncodeTextFrame(payload: seq<byte>) returns (frame: seq<byte>)
    ensures frame == Encode(payload)
  {
    frame := [];
    frame := frame + [0x81];
    var len := |payload|;
    if len <= 125 {
      frame := frame + [len];
    } else if len <= 65535 {
      frame := frame + [126];
      frame := frame + ToBe(len, 2);
    } else {
      frame := frame + [127];
      frame := frame + ToBe(len, 8);
    }
    frame := frame + payload;
  }

  datatype Parsed =
    | Frame(fin: bool, opcode: nat, payload: seq<byte>, rest: seq<byte>)
    | Incomplete
    | Malformed

  /** How many bytes of extended length follow the seven-bit length. */
  function ExtendedBytes(len7: nat): nat {
    if len7 == 126 then 2 else if len7 == 127 then 8 else 0
  }

  /** One frame off the front of b, as a client reads it: no extension bits, no mask, and the length in its shortest
      form with the top bit clear. */
  function DecodeFrame(b: seq<byte>): Parsed {
    if |b| < 2 then Incomplete
    else if b[0] / 16 % 8 != 0 || b[1] >= 128 then Malformed
    else
      var k := ExtendedBytes(b[1]);
      if |b| < 2 + k then Incomplete
      else
        var n := if k == 0 then b[1] as int else FromBe(b[2..2 + k]);
        if (k == 2 && n < 126) || (k == 8 && n < 65536) || n >= 0x8000_0000_0000_0000 then Malformed
        else if |b| < 2 + k + n then Incomplete
        else Frame(b[0] >= 128, b[0] % 16, b[2 + k..2 + k + n], b[2 + k + n..])
  }

  /** The header of an encoded frame, read field by field; more may follow, or a part may be missing at the end. */
  lemma HeaderFields(p: Text, b: seq<byte>)
    requires |b| >= 1 + |LengthField(|p|)|
    requires b[..1 + |LengthField(|p|)|] == [0x81] + LengthField(|p|)
    ensures
      var k := ExtendedBytes(b[1]);
      && b[0] == 0x81 && b[1] < 128
      && 2 + k == 1 + |LengthField(|p|)|
      && (if k == 0 then b[1] as int else FromBe(b[2..2 + k])) == |p|
      && (k == 2 ==> |p| >= 126) && (k == 8 ==> |p| >= 65536)
  {
    var n := |p|;
    var head := [0x81] + LengthField(n);
    assert forall i :: 0 <= i < |head| ==> b[i] == b[..|head|][i] == head[i];
    if 125 < n {
      var k := if n <= 65535 then 2 else 8;
      Pow256Of8();
      assert Pow256(2) == 0x1_0000;
      FromBeToBe(n, k);
      assert b[2..2 + k] == ToBe(n, k);
    }
  }

  lemma DecodeEncode(p: Text, rest: seq<byte>)
    ensures DecodeFrame(Encode(p) + rest) == Frame(true, 1, p, rest)
  {
    hide LengthField;
    var b := Encode(p) + rest;
    var h := 1 + |LengthField(|p|)|;
    assert b[..h] == [0x81] + LengthField(|p|);
    HeaderFields(p, b);
    assert b[h..h + |p|] == p && b[h + |p|..] == rest;
  }

  /** A frame cut short anywhere is recognised as incomplete. */
  lemma TruncatedIsIncomplete(p: Text, n: nat)
    requires n < |Encode(p)|
    ensures DecodeFrame(Encode(p)[..n]).Incomplete?
  {
    var b := Encode(p)[..n];
    var h := 1 + |LengthField(|p|)|;
    if n >= h {
      assert b[..h] == [0x81] + LengthField(|p|);
      HeaderFields(p, b);
    } else if n >= 2 {
      assert b[0] == 0x81 && b[1] == LengthField(|p|)[0];
    }
  }

  lemma {:induction false} ToBeFromBe(s: seq<byte>)
    ensures ToBe(FromBe(s), |s|) == s
  {
    if |s| > 0 {
      ToBeFromBe(s[..|s| - 1]);
      assert s == s[..|s| - 1] + [s[|s| - 1]];
    }
  }

  /** The encoding is the only one the decoder takes: a text frame it reads is the encoder's. */
  lemma EncodeDecode(b: seq<byte>)
    requires DecodeFrame(b).Frame? && DecodeFrame(b).fin && DecodeFrame(b).opcode == 1
    ensures b == Encode(DecodeFrame(b).payload) + DecodeFrame(b).rest
    ensures |DecodeFrame(b).payload| < 0x8000_0000_0000_0000
  {
    var k := ExtendedBytes(b[1]);
    var p := DecodeFrame(b).payload;
    assert b[0] == 0x81;
    if k > 0 {
      ToBeFromBe(b[2..2 + k]);
      if k == 2 {
        FromBeBelow(b[2..4]);
        assert Pow256(2) == 0x1_0000;
      }
    }
    assert LengthField(|p|) == b[1..2 + k];
    hide LengthField, ToBe, FromBe;
    FourParts(b, 2 + k, 2 + k + |p|);
  }

  lemma FourParts(b: seq<byte>, i: nat, j: nat)
    requires 1 <= i <= j <= |b|
    ensures b == [b[0]] + b[1..i] + b[i..j] + b[j..]
  {
  }

  lemma {:induction false} FromBeBelow(s: seq<byte>)
    ensures FromBe(s) < Pow256(|s|)
  {
    if |s| > 0 {
      FromBeBelow(s[..|s| - 1]);
    }
  }

  /** Of the length forms that can carry n, the chosen one is the shortest. */
  lemma LengthFormIsShortest(n: nat, k: nat)
    requires k in {0, 2, 8} && (k == 0 ==> n <= 125) && n < Pow256(8) && (k == 2 ==> n < 0x1_0000)
    ensures |LengthField(n)| <= 1 + k
  {
  }

  /** The frame byte by byte: final text frame, no mask, and the length in seven bits, or in two or eight bytes, the
      most significant first. */
  lemma FrameBytes(p: Text)
    ensures
      var f, n := Encode(p), |p|;
      && f[0] == 0x81
      && (n <= 125 ==> f[1] == n && f[2..] == p)
      && (126 <= n <= 65535 ==> |f| >= 4 && f[1] == 126 && f[2] == n / 256 && f[3] == n % 256 && f[4..] == p)
      && (n >= 65536 ==>
            |f| >= 10 && f[1] == 127 && f[10..] == p &&
            forall j :: 2 <= j < 10 ==> f[j] == n / Pow256(9 - j) % 256)
  {
    hide Pow256;
    var f, n := Encode(p), |p|;
    assert f == [0x81] + (LengthField(n) + p);
    if 126 <= n <= 65535 {
      TwoBytes(n);
      assert f == [0x81, 126] + ToBe(n, 2) + p;
    } else if n >= 65536 {
      assert f == [0x81, 127] + ToBe(n, 8) + p;
      forall j | 2 <= j < 10
        ensures f[j] == n / Pow256(9 - j) % 256
      {
        ToBeAt(n, 8, j - 2);
        assert f[j] == ToBe(n, 8)[j - 2];
      }
    }
  }

  lemma TwoBytes(n: nat)
    requires n < 0x1_0000
    ensures ToBe(n, 2) == [n / 256, n % 256]
  {
    assert ToBe(n / 256, 1) == [n / 256];
  }

  // ---- streams of frames ----

  function EncodeAll(ps: seq<Text>): seq<byte> {
    if |ps| == 0 then [] else Encode(ps[0]) + EncodeAll(ps[1..])
  }

  /** The text messages at the front of a byte stream and what is left undecoded. */
  datatype Stream = Stream(texts: seq<seq<byte>>, left: seq<byte>)

  function DecodeAll(b: seq<byte>): Stream
    decreases |b|
  {
    var f := DecodeFrame(b);
    if f.Frame? && f.fin && f.opcode == 1 then
      var tail := DecodeAll(f.rest);
      Stream([f.payload] + tail.texts, tail.left)
    else Stream([], b)
  }

  /** b is what a write of some text frame leaves when it is cut short. */
  ghost predicate ProperPrefix(b: seq<byte>, p: Text) {
    |b| < |Encode(p)| && b == Encode(p)[..|b|]
  }

  /** Framing is self-delimiting: the messages come back one by one, and a cut frame at the end is left over. */
  lemma {:induction false} StreamRoundTrip(ps: seq<Text>, cut: seq<byte>, q: Text)
    requires ProperPrefix(cut, q)
    ensures DecodeAll(EncodeAll(ps) + cut) == Stream(ps, cut)
  {
    hide DecodeFrame, Encode;
    if |ps| == 0 {
      assert EncodeAll(ps) + cut == cut;
      TruncatedIsIncomplete(q, |cut|);
    } else {
      assert EncodeAll(ps) + cut == Encode(ps[0]) + (EncodeAll(ps[1..]) + cut);
      DecodeEncode(ps[0], EncodeAll(ps[1..]) + cut);
      StreamRoundTrip(ps[1..], cut, q);
    }
  }

  /** Conversely the decoded messages account for the stream byte by byte. */
  lemma {:induction false} StreamIsItsMessages(b: seq<byte>)
    ensures
      var s := DecodeAll(b);
      && (forall i :: 0 <= i < |s.texts| ==> |s.texts[i]| < 0x8000_0000_0000_0000)
      && b == EncodeAll(s.texts) + s.left
    decreases |b|
  {
    hide Encode;
    var f := DecodeFrame(b);
    if f.Frame? && f.fin && f.opcode == 1 {
      EncodeDecode(b);
      StreamIsItsMessages(f.rest);
      hide DecodeFrame;
      var s, tail := DecodeAll(b), DecodeAll(f.rest);
      assert s.texts[1..] == tail.texts;
      assert b == Encode(f.payload) + (EncodeAll(tail.texts) + tail.left);
    }
  }

  lemma {:induction false} EncodeAllAppend(a: seq<Text>, b: seq<Text>)
    ensures EncodeAll(a + b) == EncodeAll(a) + EncodeAll(b)
  {
    hide Encode;
    if |a| == 0 {
      assert a + b == b;
    } else {
      assert (a + b)[1..] == a[1..] + b;
      calc {
        EncodeAll(a + b);
        Encode(a[0]) + EncodeAll(a[1..] + b);
        { EncodeAllAppend(a[1..], b); }
        Encode(a[0]) + (EncodeAll(a[1..]) + EncodeAll(b));
        (Encode(a[0]) + EncodeAll(a[1..])) + EncodeAll(b);
      }
    }
  }
}
