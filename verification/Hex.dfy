/** Lower-case hexadecimal, and the payload field built from it. */
module Hex {
  import opened Bytes

  const DIGITS: string := "0123456789abcdef"

  function HexDigit(n: nat): char
    requires n < 16
  {
    DIGITS[n]
  }

  /** format!("{:02x}"). */
  function HexByte(b: byte): (s: string)
    ensures |s| == 2
  {
    [HexDigit(b / 16), HexDigit(b % 16)]
  }

  function HexValue(c: char): nat {
    if '0' <= c <= '9' then (c - '0') as int
    else if 'a' <= c <= 'f' then (c - 'a') as int + 10
    else 0
  }

  function Unhex(hi: char, lo: char): byte {
    (HexValue(hi) * 16 + HexValue(lo)) % 256
  }

  lemma UnhexHexByte(b: byte)
    ensures Unhex(HexByte(b)[0], HexByte(b)[1]) == b
    ensures forall c :: c in HexByte(b) ==> c != ' '
  {
    HexValueDigit(b / 16);
    HexValueDigit(b % 16);
  }

  lemma HexValueDigit(n: nat)
    requires n < 16
    ensures HexValue(HexDigit(n)) == n && HexDigit(n) != ' '
  {
    if n < 10 {
      assert HexDigit(n) as int == '0' as int + n;
    } else {
      assert HexDigit(n) as int == 'a' as int + (n - 10);
    }
  }

  function HexBytes(bytes: seq<byte>): string {
    if |bytes| == 0 then [] else HexBytes(bytes[..|bytes| - 1]) + HexByte(bytes[|bytes| - 1])
  }

  function UnhexBytes(s: string): seq<byte> {
    if |s| < 2 then [] else UnhexBytes(s[..|s| - 2]) + [Unhex(s[|s| - 2], s[|s| - 1])]
  }

  /** to_hex_string: the first 256 bytes. */
  method ToHexString(bytes: seq<byte>) returns (s: string)
    ensures s == HexBytes(bytes[..if |bytes| < 256 then |bytes| else 256])
  {
    hide HexByte;
    var limit := if |bytes| < 256 then |bytes| else 256;
    s := [];
    for i := 0 to limit
      invariant s == HexBytes(bytes[..i])
    {
      s := s + HexByte(bytes[i]);
      assert bytes[..i + 1][..i] == bytes[..i];
    }
  }

  lemma UnhexSnoc(s: string, b: byte)
    ensures UnhexBytes(s + HexByte(b)) == UnhexBytes(s) + [b]
  {
    hide HexByte, Unhex;
    UnhexHexByte(b);
    var t := s + HexByte(b);
    assert t[..|t| - 2] == s;
    assert t[|t| - 2] == HexByte(b)[0] && t[|t| - 1] == HexByte(b)[1];
  }

  /** The bytes come back from their digits. */
  lemma {:induction false} UnhexHexBytes(bytes: seq<byte>)
    ensures UnhexBytes(HexBytes(bytes)) == bytes
  {
    hide HexByte, Unhex;
    if |bytes| > 0 {
      var init, last := bytes[..|bytes| - 1], bytes[|bytes| - 1];
      UnhexHexBytes(init);
      UnhexSnoc(HexBytes(init), last);
      assert bytes == init + [last];
    }
  }
}
