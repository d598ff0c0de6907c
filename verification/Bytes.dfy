/** Bytes, big-endian integers and the result types shared by the parsers. */
module Bytes {

  /** One u8. */
  type byte = x: int | 0 <= x < 256

  datatype Option<+T> = None | Some(value: T)

  datatype ParseError = BufferTooShort | InvalidFormat

  datatype Result<+T> = Ok(value: T) | Err(error: ParseError)

  /** The u16 whose big-endian bytes are hi and lo. */
  function U16(hi: byte, lo: byte): (n: nat)
    ensures n < 0x1_0000
  {
    hi * 256 + lo
  }

  /** u16::to_be_bytes. */
  function Be16(n: nat): (s: seq<byte>)
    requires n < 0x1_0000
    ensures |s| == 2 && U16(s[0], s[1]) == n
  {
    assert ToBe(n / 256, 1) == [n / 256];
    ToBe(n, 2)
  }

  function Pow256(k: nat): (p: nat)
    ensures p > 0
  {
    if k == 0 then 1 else 256 * Pow256(k - 1)
  }

  /** The k low-order bytes of n, most significant first: a truncating cast followed by to_be_bytes. */
  function ToBe(n: nat, k: nat): (s: seq<byte>)
    ensures |s| == k
  {
    if k == 0 then [] else ToBe(n / 256, k - 1) + [n % 256]
  }

  /** Byte by byte: the most significant one first. */
  lemma {:induction false} ToBeAt(n: nat, k: nat, i: nat)
    requires i < k
    ensures ToBe(n, k)[i] == n / Pow256(k - 1 - i) % 256
  {
    if i < k - 1 {
      ToBeAt(n / 256, k - 1, i);
      DivDiv(n, Pow256(k - 2 - i));
    }
  }

  lemma DivDiv(n: nat, p: nat)
    requires p > 0
    ensures n / 256 / p == n / (256 * p)
  {
    var q, r := n / 256 / p, n / 256 % p;
    assert n / 256 == q * p + r;
    assert n == q * (256 * p) + (256 * r + n % 256);
    assert 0 <= 256 * r + n % 256 < 256 * p;
    QuotientIs(n, 256 * p, q, 256 * r + n % 256);
  }

  lemma QuotientIs(n: nat, d: nat, q: nat, r: nat)
    requires r < d && n == q * d + r
    ensures n / d == q
  {
    var k := n / d;
    assert n == k * d + n % d;
    Multiples(k + 1, q, d);
    Multiples(q + 1, k, d);
  }

  lemma Multiples(a: nat, b: nat, d: nat)
    ensures a <= b ==> a * d <= b * d
  {
  }

  /** from_be_bytes. */
  function FromBe(s: seq<byte>): nat
  {
    if |s| == 0 then 0 else FromBe(s[..|s| - 1]) * 256 + s[|s| - 1]
  }

  /** from_le_bytes. */
  function FromLe(s: seq<byte>): nat
  {
    if |s| == 0 then 0 else s[0] + 256 * FromLe(s[1..])
  }

  /** Reading back what was written gives the number modulo 256^k, so the number itself when it fits. */
  lemma {:induction false} FromBeToBe(n: nat, k: nat)
    requires n < Pow256(k)
    ensures FromBe(ToBe(n, k)) == n
  {
    if k > 0 {
      FromBeToBe(n / 256, k - 1);
      assert ToBe(n, k)[..k - 1] == ToBe(n / 256, k - 1);
    }
  }

  lemma Pow256Of8()
    ensures Pow256(8) == 0x1_0000_0000_0000_0000
  {
    assert Pow256(4) == 0x1_0000_0000 by {
      assert Pow256(2) == 0x1_0000;
    }
    assert Pow256(6) == 0x1_0000_0000_0000;
  }

  lemma SliceOfSlice<T>(s: seq<T>, lo: nat, hi: nat, i: nat, j: nat)
    requires lo <= hi <= |s| && i <= j <= hi - lo
    ensures s[lo..hi][i..j] == s[lo + i..lo + j]
  {
    assert forall k :: 0 <= k < j - i ==> s[lo..hi][i..j][k] == s[lo..hi][i + k] == s[lo + i + k];
    assert s[lo..hi][i..j] == s[lo + i..lo + j];
  }

  lemma Assoc<T>(a: seq<T>, b: seq<T>, c: seq<T>)
    ensures a + b + c == a + (b + c)
  {
  }

  /** Concatenation of a list of byte strings, in order. */
  function Concat<T>(parts: seq<seq<T>>): seq<T>
  {
    if |parts| == 0 then [] else parts[0] + Concat(parts[1..])
  }

  lemma {:induction false} ConcatAppend<T>(a: seq<seq<T>>, b: seq<seq<T>>)
    ensures Concat(a + b) == Concat(a) + Concat(b)
  {
    if |a| == 0 {
      assert a + b == b;
    } else {
      assert (a + b)[0] == a[0] && (a + b)[1..] == a[1..] + b;
      calc {
        Concat(a + b);
        a[0] + Concat(a[1..] + b);
        { ConcatAppend(a[1..], b); }
        a[0] + (Concat(a[1..]) + Concat(b));
        (a[0] + Concat(a[1..])) + Concat(b);
      }
    }
  }

  lemma ConcatSnoc<T>(a: seq<seq<T>>, x: seq<T>)
    ensures Concat(a + [x]) == Concat(a) + x
  {
    ConcatAppend(a, [x]);
    assert Concat([x]) == x + Concat([x][1..]) == x;
  }

  /** The bytes of an ASCII string: one per character. */
  function AsciiBytes(s: string): seq<byte> {
    seq(|s|, i requires 0 <= i < |s| => s[i] as int % 256)
  }
}
