/** The built-in Base64 encoder against a strict decoder for section 4 of RFC 4648. */
module Base64 {
  import opened Bytes

  const UPPER: string := "ABCDEFGHIJKLMNOPQRSTUVWXYZ"
  const LOWER: string := "abcdefghijklmnopqrstuvwxyz"
  const DIGITS: string := "0123456789"
  const ALPHABET: string := UPPER + LOWER + DIGITS + "+/"

  type sextet = x: int | 0 <= x < 64

  function Digit(v: sextet): char {
    ALPHABET[v]
  }

  /** The value of a Base64 digit, by Table 1 of RFC 4648. */
  function Value(c: char): Option<sextet> {
    if 'A' <= c <= 'Z' then Some((c - 'A') as int)
    else if 'a' <= c <= 'z' then Some((c - 'a') as int + 26)
    else if '0' <= c <= '9' then Some((c - '0') as int + 52)
    else if c == '+' then Some(62)
    else if c == '/' then Some(63)
    else None
  }

  /** One full group: 24 bits as four sextets. */
  function Encode3(n: nat): string
    requires n < 0x100_0000
  {
    [Digit(n / 262144), Digit(n / 4096 % 64), Digit(n / 64 % 64), Digit(n % 64)]
  }

  /** The encoding of a final group of two bytes: 16 bits and two zero bits. */
  function Encode2(n: nat): string
    requires n < 0x1_0000
  {
    [Digit(n / 1024), Digit(n / 16 % 64), Digit(n % 16 * 4), '=']
  }

  /** The encoding of a final byte: 8 bits and four zero bits. */
  function Encode1(n: nat): string
    requires n < 0x100
  {
    [Digit(n / 4), Digit(n % 4 * 16), '=', '=']
  }

  function Encode(data: seq<byte>): string {
    if |data| == 0 then []
    else if |data| == 1 then Encode1(data[0])
    else if |data| == 2 then Encode2(U16(data[0], data[1]))
    else Encode3(data[0] * 0x1_0000 + U16(data[1], data[2])) + Encode(data[3..])
  }

  lemma EncodeCases(data: seq<byte>)
    ensures |data| == 0 ==> Encode(data) == []
    ensures |data| == 1 ==> Encode(data) == Encode1(data[0]) && |Encode(data)| == 4
    ensures |data| == 2 ==> Encode(data) == Encode2(U16(data[0], data[1])) && |Encode(data)| == 4
    ensures |data| >= 3 ==>
      var q := Encode3(data[0] * 0x1_0000 + U16(data[1], data[2]));
      |q| == 4 && Encode(data) == q + Encode(data[3..])
  {
  }

  /** base64_encode. */
  method Base64Encode(data: seq<byte>) returns (result: string)
    ensures result == Encode(data)
  {
    hide Encode;
    result := [];
    var i := 0;
    assert data[0..] == data;
    EncodeFrom(data, |data|);
    while i < |data|
      invariant 0 <= i
      invariant result + (if i <= |data| then Encode(data[i..]) else []) == Encode(data)
      decreases |data| - i
    {
      EncodeFrom(data, i);
      var chunk := data[i..if i + 3 < |data| then i + 3 else |data|];
      var group := EncodeChunk(chunk);
      ghost var before := result;
      result := result + group;
      if i + 3 < |data| {
        assert before + (group + Encode(data[i + 3..])) == result + Encode(data[i + 3..]);
      } else {
        assert chunk == data[i..];
      }
      i := i + 3;
    }
  }

  /** The inner loop: the chunk as one number. */
  method ChunkNumber(chunk: seq<byte>) returns (b: nat)
    requires 1 <= |chunk| <= 3
    ensures |chunk| == 1 ==> b == chunk[0]
    ensures |chunk| == 2 ==> b == U16(chunk[0], chunk[1])
    ensures |chunk| == 3 ==> b == chunk[0] * 0x1_0000 + U16(chunk[1], chunk[2])
  {
    b := 0;
    for j := 0 to |chunk|
      invariant j == 0 ==> b == 0
      invariant j == 1 ==> b == chunk[0]
      invariant j == 2 ==> b == U16(chunk[0], chunk[1])
      invariant j == 3 ==> b == chunk[0] * 0x1_0000 + U16(chunk[1], chunk[2])
    {
      b := b * 256 + chunk[j];
    }
  }

  /** The body of the loop: the four characters for one chunk. */
  method EncodeChunk(chunk: seq<byte>) returns (group: string)
    requires 1 <= |chunk| <= 3
    ensures group == Encode(chunk)
  {
    hide Encode, Encode1, Encode2, Encode3;
    var b := ChunkNumber(chunk);
    if |chunk| == 3 {
      EncodeThree(chunk);
      group := PushFull(b);
    } else if |chunk| == 2 {
      EncodeCases(chunk);
      group := PushTwo(b);
    } else {
      EncodeCases(chunk);
      group := PushOne(b);
    }
  }

  method PushFull(b: nat) returns (group: string)
    requires b < 0x100_0000
    ensures group == Encode3(b)
  {
    hide Digit;
    group := [];
    group := group + [Digit(b / 262144 % 64)];
    group := group + [Digit(b / 4096 % 64)];
    group := group + [Digit(b / 64 % 64)];
    group := group + [Digit(b % 64)];
  }

  method PushTwo(n: nat) returns (group: string)
    requires n < 0x1_0000
    ensures group == Encode2(n)
  {
    hide Digit;
    Shifted2(n);
    var b := n * 4;
    group := [];
    group := group + [Digit(b / 4096 % 64)];
    group := group + [Digit(b / 64 % 64)];
    group := group + [Digit(b % 64)];
    group := group + ['='];
  }

  method PushOne(n: nat) returns (group: string)
    requires n < 0x100
    ensures group == Encode1(n)
  {
    hide Digit;
    Shifted1(n);
    var b := n * 16;
    group := [];
    group := group + [Digit(b / 64 % 64)];
    group := group + [Digit(b % 64)];
    group := group + ['='];
    group := group + ['='];
  }

  lemma Shifted2(b: nat)
    requires b < 0x1_0000
    ensures b * 4 / 4096 % 64 == b / 1024 && b * 4 / 64 % 64 == b / 16 % 64 && b * 4 % 64 == b % 16 * 4
  {
    assert b * 4 / 4096 == b / 1024;
    assert b * 4 / 64 == b / 16;
  }

  lemma Shifted1(b: nat)
    requires b < 0x100
    ensures b * 16 / 64 % 64 == b / 4 && b * 16 % 64 == b % 4 * 16
  {
    assert b * 16 / 64 == b / 4;
  }

  /** The first chunk is encoded on its own. */
  lemma EncodeHead(b: seq<byte>)
    requires |b| > 3
    ensures Encode(b) == Encode(b[..3]) + Encode(b[3..])
  {
    hide Encode, Encode1, Encode2, Encode3;
    EncodeCases(b);
    EncodeThree(b[..3]);
  }

  lemma EncodeThree(b: seq<byte>)
    requires |b| == 3
    ensures Encode(b) == Encode3(b[0] * 0x1_0000 + U16(b[1], b[2]))
  {
    hide Encode, Encode1, Encode2, Encode3;
    EncodeCases(b);
    assert b[3..] == [];
    EncodeCases([]);
  }

  /** One turn of the loop. */
  lemma EncodeFrom(data: seq<byte>, i: nat)
    requires i <= |data|
    ensures i == |data| ==> Encode(data[i..]) == []
    ensures i + 3 < |data| ==> Encode(data[i..]) == Encode(data[i..i + 3]) + Encode(data[i + 3..])
  {
    hide Encode;
    EncodeCases(data[i..]);
    if i + 3 < |data| {
      EncodeHead(data[i..]);
      assert data[i..][..3] == data[i..i + 3] && data[i..][3..] == data[i + 3..];
    }
  }

  // ---- decoding ----

  function Decode3(v0: sextet, v1: sextet, v2: sextet, v3: sextet): seq<byte> {
    [v0 * 4 + v1 / 16, v1 % 16 * 16 + v2 / 4, v2 % 4 * 64 + v3]
  }

  /** A group without padding. */
  function DecodeFull(q: string): Option<seq<byte>>
    requires |q| == 4
  {
    match (Value(q[0]), Value(q[1]), Value(q[2]), Value(q[3]))
    case (Some(v0), Some(v1), Some(v2), Some(v3)) => Some(Decode3(v0, v1, v2, v3))
    case _ => None
  }

  /** The last group, which may be padded; the pad bits must be zero. */
  function DecodeLast(q: string): Option<seq<byte>>
    requires |q| == 4
  {
    if q[3] != '=' then DecodeFull(q)
    else if q[2] != '=' then
      match (Value(q[0]), Value(q[1]), Value(q[2]))
      case (Some(v0), Some(v1), Some(v2)) =>
        if v2 % 4 != 0 then None else Some([(v0 as int) * 4 + v1 / 16, (v1 as int) % 16 * 16 + v2 / 4])
      case _ => None
    else
      match (Value(q[0]), Value(q[1]))
      case (Some(v0), Some(v1)) => if v1 % 16 != 0 then None else Some([(v0 as int) * 4 + v1 / 16])
      case _ => None
  }

  function Decode(s: string): Option<seq<byte>> {
    if |s| == 0 then Some([])
    else if |s| < 4 then None
    else if |s| == 4 then DecodeLast(s)
    else
      match (DecodeFull(s[..4]), Decode(s[4..]))
      case (Some(head), Some(tail)) => Some(head + tail)
      case _ => None
  }

  lemma Letters(v: sextet)
    ensures v < 26 ==> UPPER[v] as int == 'A' as int + v && LOWER[v] as int == 'a' as int + v
  {
  }

  lemma Numerals(v: sextet)
    ensures v < 10 ==> DIGITS[v] as int == '0' as int + v
  {
  }

  lemma Alphabet(v: sextet)
    ensures v < 26 ==> Digit(v) as int == 'A' as int + v
    ensures 26 <= v < 52 ==> Digit(v) as int == 'a' as int + (v - 26)
    ensures 52 <= v < 62 ==> Digit(v) as int == '0' as int + (v - 52)
    ensures v == 62 ==> Digit(v) == '+'
    ensures v == 63 ==> Digit(v) == '/'
  {
    AlphabetParts(v);
    hide Digit;
    if v < 26 {
      Letters(v);
    } else if v < 52 {
      Letters(v - 26);
    } else if v < 62 {
      Numerals(v - 52);
    }
  }

  lemma AlphabetParts(v: sextet)
    ensures |UPPER| == 26 && |LOWER| == 26 && |DIGITS| == 10
    ensures Digit(v) ==
      if v < 26 then UPPER[v] else if v < 52 then LOWER[v - 26] else if v < 62 then DIGITS[v - 52]
      else if v == 62 then '+' else '/'
  {
  }

  /** The alphabet and the value table are inverse. */
  lemma DigitValue(v: sextet, c: char)
    ensures Value(Digit(v)) == Some(v) && Digit(v) != '='
    ensures Value(c) == Some(v) ==> Digit(v) == c
  {
    hide Digit;
    Alphabet(v);
  }

  /** The base-64 digits of a number. */
  lemma Digits64(x: nat, y: sextet, z: sextet, w: sextet)
    ensures
      var n := x * 262144 + y * 4096 + z * 64 + w;
      n / 262144 == x && n / 4096 % 64 == y && n / 64 % 64 == z && n % 64 == w
  {
    var n := x * 262144 + y * 4096 + z * 64 + w;
    assert n / 64 == x * 4096 + y * 64 + z;
    assert n / 4096 == x * 64 + y;
  }

  /** Two bits groups side by side. */
  lemma Halves(hi: nat, lo: nat, size: nat)
    requires size in {4, 16, 64} && lo < size
    ensures (hi * size + lo) / size == hi && (hi * size + lo) % size == lo
  {
  }

  /** Splitting 24 bits into sextets and putting the bytes back together. */
  lemma Group3(b0: byte, b1: byte, b2: byte)
    ensures
      var n := b0 * 0x1_0000 + U16(b1, b2);
      n < 0x100_0000 && Decode3(n / 262144, n / 4096 % 64, n / 64 % 64, n % 64) == [b0, b1, b2]
  {
    var y, z := b0 % 4 * 16 + b1 / 16, b1 % 16 * 4 + b2 / 64;
    var n := b0 * 0x1_0000 + U16(b1, b2);
    assert n == b0 / 4 * 262144 + y * 4096 + z * 64 + b2 % 64;
    Digits64(b0 / 4, y, z, b2 % 64);
    Halves(b0 % 4, b1 / 16, 16);
    Halves(b1 % 16, b2 / 64, 4);
  }

  /** The same for 16 bits and two zero bits. */
  lemma Group2(b0: byte, b1: byte)
    ensures
      var n := U16(b0, b1);
      && n / 1024 == b0 / 4 && n / 16 % 64 == b0 % 4 * 16 + b1 / 16 && n % 16 * 4 == b1 % 16 * 4
      && (b0 % 4 * 16 + b1 / 16) / 16 == b0 % 4 && (b0 % 4 * 16 + b1 / 16) % 16 == b1 / 16
  {
    var y := b0 % 4 * 16 + b1 / 16;
    var n := U16(b0, b1);
    assert n == b0 / 4 * 1024 + y * 16 + b1 % 16;
    assert n / 16 == b0 / 4 * 64 + y;
    Halves(b0 % 4, b1 / 16, 16);
    Halves(b0 / 4, y, 64);
  }

  lemma DecodeEncode2(b0: byte, b1: byte)
    ensures DecodeLast(Encode2(U16(b0, b1))) == Some([b0, b1])
  {
    hide Digit, Value;
    var n := U16(b0, b1);
    DigitValue(n / 1024, '=');
    DigitValue(n / 16 % 64, '=');
    DigitValue(n % 16 * 4, '=');
    Group2(b0, b1);
  }

  lemma DecodeEncode1(b0: byte)
    ensures DecodeLast(Encode1(b0)) == Some([b0])
  {
    hide Digit, Value;
    DigitValue(b0 / 4, '=');
    DigitValue(b0 % 4 * 16, '=');
  }

  lemma DecodeEncode3(b0: byte, b1: byte, b2: byte)
    ensures
      var q := Encode3(b0 * 0x1_0000 + U16(b1, b2));
      DecodeFull(q) == Some([b0, b1, b2]) && q[3] != '='
  {
    hide Digit, Value, Decode3;
    var n := b0 * 0x1_0000 + U16(b1, b2);
    DigitValue(n / 262144, '=');
    DigitValue(n / 4096 % 64, '=');
    DigitValue(n / 64 % 64, '=');
    DigitValue(n % 64, '=');
    Group3(b0, b1, b2);
  }

  /** Every byte string comes back; the strict decoder also accepts where the padding is and that its bits are zero. */
  lemma {:induction false} RoundTrip(data: seq<byte>)
    ensures Decode(Encode(data)) == Some(data)
    ensures |Encode(data)| == 4 * ((|data| + 2) / 3)
  {
    hide Encode, Encode1, Encode2, Encode3, DecodeFull, DecodeLast;
    EncodeCases(data);
    if |data| == 1 {
      DecodeEncode1(data[0]);
      assert data == [data[0]];
    } else if |data| == 2 {
      DecodeEncode2(data[0], data[1]);
      assert data == [data[0], data[1]];
    } else if |data| >= 3 {
      var q := Encode3(data[0] * 0x1_0000 + U16(data[1], data[2]));
      DecodeEncode3(data[0], data[1], data[2]);
      RoundTrip(data[3..]);
      DecodeCons(q, Encode(data[3..]));
      assert data == [data[0], data[1], data[2]] + data[3..];
    }
  }

  lemma DecodeCons(q: string, s: string)
    requires |q| == 4 && q[3] != '='
    ensures Decode(q + s) ==
      match (DecodeFull(q), Decode(s))
      case (Some(head), Some(tail)) => Some(head + tail)
      case _ => None
  {
    hide DecodeFull;
    assert (q + s)[..4] == q && (q + s)[4..] == s;
    if |s| == 0 {
      assert q + s == q;
      if DecodeFull(q).Some? {
        assert DecodeFull(q).value + [] == DecodeFull(q).value;
      }
    }
  }

  /** The bytes of four sextets make the number whose base-64 digits those are. */
  lemma Ungroup3(v0: sextet, v1: sextet, v2: sextet, v3: sextet)
    ensures
      var b := Decode3(v0, v1, v2, v3);
      var n := b[0] * 0x1_0000 + U16(b[1], b[2]);
      n < 0x100_0000 && n / 262144 == v0 && n / 4096 % 64 == v1 && n / 64 % 64 == v2 && n % 64 == v3
  {
    var b := Decode3(v0, v1, v2, v3);
    assert b[0] * 0x1_0000 + U16(b[1], b[2]) == v0 * 262144 + v1 * 4096 + v2 * 64 + v3;
    Digits64(v0, v1, v2, v3);
  }

  lemma EncodeDecodeFull(q: string)
    requires |q| == 4 && DecodeFull(q).Some?
    ensures |DecodeFull(q).value| == 3
    ensures var b := DecodeFull(q).value; Encode3(b[0] * 0x1_0000 + U16(b[1], b[2])) == q
  {
    hide Digit, Value;
    var v0, v1, v2, v3 := Value(q[0]).value, Value(q[1]).value, Value(q[2]).value, Value(q[3]).value;
    DigitValue(v0, q[0]);
    DigitValue(v1, q[1]);
    DigitValue(v2, q[2]);
    DigitValue(v3, q[3]);
    Ungroup3(v0, v1, v2, v3);
  }

  lemma EncodeDecodePadded(q: string)
    requires |q| == 4 && q[3] == '=' && DecodeLast(q).Some?
    ensures 1 <= |DecodeLast(q).value| <= 2
    ensures var b := DecodeLast(q).value;
      q == if |b| == 1 then Encode1(b[0]) else Encode2(U16(b[0], b[1]))
  {
    hide Digit, Value;
    var v0, v1 := Value(q[0]).value, Value(q[1]).value;
    DigitValue(v0, q[0]);
    DigitValue(v1, q[1]);
    if q[2] == '=' {
      assert q == [q[0], q[1], '=', '='];
    } else {
      var v2 := Value(q[2]).value;
      DigitValue(v2, q[2]);
      Ungroup2(v0, v1, v2);
      assert q == [q[0], q[1], q[2], '='];
    }
  }

  lemma Ungroup2(v0: sextet, v1: sextet, v2: sextet)
    requires v2 % 4 == 0
    ensures
      var n := U16(v0 as int * 4 + v1 / 16, v1 as int % 16 * 16 + v2 / 4);
      n / 1024 == v0 && n / 16 % 64 == v1 && n % 16 * 4 == v2
  {
    var n := U16(v0 as int * 4 + v1 / 16, v1 as int % 16 * 16 + v2 / 4);
    assert n == v0 * 1024 + v1 * 16 + v2 / 4;
    assert n / 16 == v0 * 64 + v1;
    Halves(v0, v1, 64);
  }

  /** What the strict decoder accepts is nothing but encodings: padding at the end only, its bits zero. */
  lemma {:induction false} OnlyEncodingsDecode(s: string)
    requires Decode(s).Some?
    ensures Encode(Decode(s).value) == s
    decreases |s|
  {
    hide Encode, Encode1, Encode2, Encode3, DecodeFull, Value;
    EncodeCases(Decode(s).value);
    if |s| == 4 && s[3] == '=' {
      EncodeDecodePadded(s);
    } else if |s| == 4 {
      EncodeDecodeFull(s);
      EncodeThree(Decode(s).value);
    } else if |s| > 4 {
      var q := s[..4];
      EncodeDecodeFull(q);
      OnlyEncodingsDecode(s[4..]);
      var head, tail := DecodeFull(q).value, Decode(s[4..]).value;
      assert (head + tail)[3..] == tail;
      assert s == q + s[4..];
    }
  }
}
