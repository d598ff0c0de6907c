/** std::str::from_utf8: the byte strings that are well-formed UTF-8 (Table 3-7 of the Unicode standard). */
module Utf8 {
  import opened Bytes

  predicate Continuation(b: byte) {
    0x80 <= b <= 0xBF
  }

  /** The length of the well-formed sequence that b starts with, or 0 when it starts with none. */
  function Leading(b: seq<byte>): (n: nat)
    ensures n <= 4 && n <= |b|
  {
    if |b| == 0 then 0
    else if b[0] <= 0x7F then 1
    else if 0xC2 <= b[0] <= 0xDF && |b| >= 2 && Continuation(b[1]) then 2
    else if 0xE0 <= b[0] <= 0xEF && |b| >= 3 && Continuation(b[1]) && Continuation(b[2])
            && (b[0] == 0xE0 ==> b[1] >= 0xA0) && (b[0] == 0xED ==> b[1] <= 0x9F) then 3
    else if 0xF0 <= b[0] <= 0xF4 && |b| >= 4 && Continuation(b[1]) && Continuation(b[2]) && Continuation(b[3])
            && (b[0] == 0xF0 ==> b[1] >= 0x90) && (b[0] == 0xF4 ==> b[1] <= 0x8F) then 4
    else 0
  }

  predicate Valid(b: seq<byte>)
    decreases |b|
  {
    |b| == 0 || (Leading(b) > 0 && Valid(b[Leading(b)..]))
  }

  /** A Unicode scalar value: what a Rust char holds. */
  predicate Scalar(c: int) {
    0 <= c < 0xD800 || 0xE000 <= c < 0x11_0000
  }

  /** The UTF-8 form of one scalar value (section 3 of RFC 3629). */
  function EncodeScalar(c: int): (s: seq<byte>)
    requires Scalar(c)
    ensures |s| >= 1
  {
    if c < 0x80 then [c]
    else if c < 0x800 then [0xC0 + c / 64, 0x80 + c % 64]
    else if c < 0x1_0000 then [0xE0 + c / 4096, 0x80 + c / 64 % 64, 0x80 + c % 64]
    else [0xF0 + c / 262144, 0x80 + c / 4096 % 64, 0x80 + c / 64 % 64, 0x80 + c % 64]
  }

  ghost predicate Scalars(cs: seq<int>) {
    forall i :: 0 <= i < |cs| ==> Scalar(cs[i])
  }

  ghost function Encode(cs: seq<int>): seq<byte>
    requires Scalars(cs)
  {
    if |cs| == 0 then [] else EncodeScalar(cs[0]) + Encode(cs[1..])
  }

  /** The scalar value whose encoding is the sequence that b starts with. */
  function DecodeScalar(b: seq<byte>): int
    requires Leading(b) > 0
  {
    var lead := b[0] as int;
    if Leading(b) == 1 then lead
    else if Leading(b) == 2 then (lead - 0xC0) * 64 + Low(b[1])
    else if Leading(b) == 3 then (lead - 0xE0) * 4096 + Low(b[1]) * 64 + Low(b[2])
    else (lead - 0xF0) * 262144 + Low(b[1]) * 4096 + Low(b[2]) * 64 + Low(b[3])
  }

  /** The six payload bits of a continuation byte. */
  function Low(b: byte): int {
    b as int - 0x80
  }

  /** Splitting off the low six bits, as often as the sequence has continuation bytes. */
  lemma Sextets(h: int, x: int, y: int, z: int)
    requires 0 <= x < 64 && 0 <= y < 64 && 0 <= z < 64
    ensures (h * 64 + x) / 64 == h && (h * 64 + x) % 64 == x
    ensures (h * 4096 + x * 64 + y) / 64 == h * 64 + x && (h * 4096 + x * 64 + y) % 64 == y
    ensures (h * 4096 + x * 64 + y) / 4096 == h
    ensures (h * 262144 + x * 4096 + y * 64 + z) / 64 == h * 4096 + x * 64 + y
    ensures (h * 262144 + x * 4096 + y * 64 + z) % 64 == z
    ensures (h * 262144 + x * 4096 + y * 64 + z) / 4096 == h * 64 + x
    ensures (h * 262144 + x * 4096 + y * 64 + z) / 262144 == h
  {
  }

  lemma DecodeScalarEncodes(b: seq<byte>)
    requires Leading(b) > 0
    ensures Scalar(DecodeScalar(b)) && EncodeScalar(DecodeScalar(b)) == b[..Leading(b)]
  {
    if Leading(b) == 2 {
      Sextets(b[0] as int - 0xC0, Low(b[1]), 0, 0);
    } else if Leading(b) == 3 {
      DecodeThree(b);
    } else if Leading(b) == 4 {
      DecodeFour(b);
    }
  }

  lemma DecodeThree(b: seq<byte>)
    requires Leading(b) == 3
    ensures Scalar(DecodeScalar(b)) && EncodeScalar(DecodeScalar(b)) == b[..3]
  {
    Sextets(b[0] as int - 0xE0, Low(b[1]), Low(b[2]), 0);
    assert 0x800 <= DecodeScalar(b) < 0x1_0000;
  }

  lemma DecodeFour(b: seq<byte>)
    requires Leading(b) == 4
    ensures Scalar(DecodeScalar(b)) && EncodeScalar(DecodeScalar(b)) == b[..4]
  {
    Sextets(b[0] as int - 0xF0, Low(b[1]), Low(b[2]), Low(b[3]));
    assert 0x1_0000 <= DecodeScalar(b) < 0x11_0000;
  }

  lemma EncodeScalarLeads(c: int, rest: seq<byte>)
    requires Scalar(c)
    ensures Leading(EncodeScalar(c) + rest) == |EncodeScalar(c)|
  {
    if 0x80 <= c < 0x800 {
      assert 2 <= c / 64 < 32;
    } else if 0x800 <= c < 0x1_0000 {
      ThreeParts(c);
    } else if 0x1_0000 <= c {
      FourParts(c);
    }
  }

  /** The leading bits and the first six bits of scalar values of three and of four bytes. */
  lemma ThreeParts(c: int)
    requires 0x800 <= c < 0x1_0000 && Scalar(c)
    ensures 0 <= c / 4096 < 16
    ensures c / 4096 == 0 ==> c / 64 % 64 >= 32
    ensures c / 4096 == 13 ==> c / 64 % 64 < 32
  {
  }

  lemma FourParts(c: int)
    requires 0x1_0000 <= c < 0x11_0000
    ensures 0 <= c / 262144 <= 4
    ensures c / 262144 == 0 ==> c / 4096 % 64 >= 16
    ensures c / 262144 == 4 ==> c / 4096 % 64 < 16
  {
  }

  /** The validator accepts exactly the encodings of sequences of scalar values. */
  lemma ValidIffEncoding(b: seq<byte>)
    ensures Valid(b) <==> exists cs :: Scalars(cs) && Encode(cs) == b
  {
    if Valid(b) {
      var cs := Decode(b);
    }
    forall cs | Scalars(cs) && Encode(cs) == b
      ensures Valid(b)
    {
      EncodeValid(cs);
    }
  }

  lemma {:induction false} Decode(b: seq<byte>) returns (cs: seq<int>)
    requires Valid(b)
    ensures Scalars(cs) && Encode(cs) == b
    decreases |b|
  {
    if |b| == 0 {
      cs := [];
    } else {
      DecodeScalarEncodes(b);
      var tail := Decode(b[Leading(b)..]);
      cs := [DecodeScalar(b)] + tail;
      assert cs[1..] == tail;
      assert b == b[..Leading(b)] + b[Leading(b)..];
    }
  }

  lemma {:induction false} EncodeValid(cs: seq<int>)
    requires Scalars(cs)
    ensures Valid(Encode(cs))
  {
    if |cs| > 0 {
      EncodeScalarLeads(cs[0], Encode(cs[1..]));
      EncodeValid(cs[1..]);
      assert Encode(cs)[|EncodeScalar(cs[0])|..] == Encode(cs[1..]);
    }
  }

  lemma LeadingAppend(a: seq<byte>, b: seq<byte>)
    requires Leading(a) > 0
    ensures Leading(a + b) == Leading(a)
  {
  }

  /** Appending valid text to valid text (String::push_str) leaves valid text. */
  lemma {:induction false} ValidAppend(a: seq<byte>, b: seq<byte>)
    requires Valid(a) && Valid(b)
    ensures Valid(a + b)
    decreases |a|
  {
    if |a| == 0 {
      assert a + b == b;
    } else {
      var n := Leading(a);
      LeadingAppend(a, b);
      assert (a + b)[n..] == a[n..] + b;
      ValidAppend(a[n..], b);
    }
  }

  /** Cutting valid text at an ASCII character leaves valid text on both sides. */
  lemma {:induction false} ValidAroundAscii(a: seq<byte>, c: byte, b: seq<byte>)
    requires c < 0x80 && Valid(a + [c] + b)
    ensures Valid(a) && Valid(b)
    decreases |a|
  {
    var s := a + [c] + b;
    if |a| == 0 {
      assert s[1..] == b;
    } else {
      LeadingBeforeAscii(a, c, b);
      var n := Leading(s);
      assert s[n..] == a[n..] + [c] + b;
      ValidAroundAscii(a[n..], c, b);
    }
  }

  lemma LeadingBeforeAscii(a: seq<byte>, c: byte, b: seq<byte>)
    requires c < 0x80 && |a| > 0 && Leading(a + [c] + b) > 0
    ensures Leading(a) == Leading(a + [c] + b)
  {
    var s := a + [c] + b;
    assert s[|a|] == c;
    assert forall i :: 0 <= i < |a| ==> s[i] == a[i];
  }
}
