/** The built-in SHA-1 against the definition of FIPS 180-4. */
module Sha1 {
  import opened Bytes

  type word = bv32

  // ---- section 5.1.1: padding ----

  function Zeros(n: nat): (z: seq<byte>)
    ensures |z| == n
  {
    seq(n, _ => 0)
  }

  /** How many zero bytes follow the 0x80 byte: the least number that leaves room for the length field. */
  function ZeroCount(len: nat): nat {
    (55 - len) % 64
  }

  /** The message, a one bit, zero bits, and the message length in bits as a 64-bit number (cast and product wrap). */
  function Padded(data: seq<byte>): (p: seq<byte>)
    ensures |p| % 64 == 0
  {
    data + [0x80] + Zeros(ZeroCount(|data|)) + ToBe(|data| * 8, 8)
  }

  /** A message of len bytes, the 0x80 byte and z zero bytes end 64 bits short of a block. */
  predicate LeavesLengthField(len: nat, z: nat) {
    (8 * (len + 1 + z)) % 512 == 448
  }

  lemma PaddingIsMinimal(len: nat)
    ensures LeavesLengthField(len, ZeroCount(len))
    ensures forall z: nat :: z < ZeroCount(len) ==> !LeavesLengthField(len, z)
  {
  }

  /** No two messages below 2^61 bytes pad to the same blocks. */
  lemma PaddingIsInjective(a: seq<byte>, b: seq<byte>)
    requires |a| < 0x2000_0000_0000_0000 && |b| < 0x2000_0000_0000_0000
    requires Padded(a) == Padded(b)
    ensures a == b
  {
    var p := Padded(a);
    Pow256Of8();
    FromBeToBe(|a| * 8, 8);
    FromBeToBe(|b| * 8, 8);
    assert p[|p| - 8..] == ToBe(|a| * 8, 8);
    assert Padded(b)[|p| - 8..] == ToBe(|b| * 8, 8);
    assert p[..|a|] == a && Padded(b)[..|b|] == b;
  }

  // ---- sections 3.2, 4.1.1, 4.2.1: functions and constants ----

  function Rotl(x: word, n: nat): word
    requires 0 < n < 32
  {
    (x << n) | (x >> (32 - n))
  }

  function Ch(x: word, y: word, z: word): word {
    (x & y) ^ (!x & z)
  }

  function Parity(x: word, y: word, z: word): word {
    x ^ y ^ z
  }

  function Maj(x: word, y: word, z: word): word {
    (x & y) ^ (x & z) ^ (y & z)
  }

  function F(t: nat, x: word, y: word, z: word): word {
    if t <= 19 then Ch(x, y, z)
    else if t <= 39 then Parity(x, y, z)
    else if t <= 59 then Maj(x, y, z)
    else Parity(x, y, z)
  }

  function K(t: nat): word {
    if t <= 19 then 0x5a827999
    else if t <= 39 then 0x6ed9eba1
    else if t <= 59 then 0x8f1bbcdc
    else 0xca62c1d6
  }

  /** Ch and Maj as the code writes them, with OR. */
  function ChOr(x: word, y: word, z: word): word {
    (x & y) | (!x & z)
  }

  function MajOr(x: word, y: word, z: word): word {
    (x & y) | (x & z) | (y & z)
  }

  /** The code's OR forms agree with the XOR forms of the standard. */
  lemma OrForms(x: word, y: word, z: word)
    ensures ChOr(x, y, z) == Ch(x, y, z)
    ensures MajOr(x, y, z) == Maj(x, y, z)
  {
    ChForms(x, y, z);
    MajForms(x, y, z);
  }

  lemma ChForms(x: word, y: word, z: word)
    ensures ChOr(x, y, z) == Ch(x, y, z)
  {
    assert (x & y) | (!x & z) == (x & y) ^ (!x & z);
  }

  lemma MajForms(x: word, y: word, z: word)
    ensures MajOr(x, y, z) == Maj(x, y, z)
  {
    assert (x & y) | (x & z) | (y & z) == (x & y) ^ (x & z) ^ (y & z);
  }

  // ---- section 6.1.2: the hash ----

  datatype Hash = Hash(a: word, b: word, c: word, d: word, e: word)

  const H0: Hash := Hash(0x67452301, 0xefcdab89, 0x98badcfe, 0x10325476, 0xc3d2e1f0)

  /** The big-endian word at a position. */
  function WordAt(m: seq<byte>, at: nat): word
    requires at + 4 <= |m|
  {
    ((m[at] as word) << 24) | ((m[at + 1] as word) << 16) | ((m[at + 2] as word) << 8) | (m[at + 3] as word)
  }

  /** The message schedule of the block that starts at base. */
  function W(m: seq<byte>, base: nat, t: nat): word
    requires base + 64 <= |m|
  {
    if t < 16 then WordAt(m, base + t * 4)
    else Rotl(W(m, base, t - 3) ^ W(m, base, t - 8) ^ W(m, base, t - 14) ^ W(m, base, t - 16), 1)
  }

  /** Addition modulo 2^32: wrapping_add, four times. */
  function Sum(v: word, f: word, e: word, k: word, w: word): word {
    v + f + e + k + w
  }

  function Round(t: nat, w: word, h: Hash): Hash {
    Hash(Sum(Rotl(h.a, 5), F(t, h.b, h.c, h.d), h.e, K(t), w), h.a, Rotl(h.b, 30), h.c, h.d)
  }

  /** The working variables after t rounds on the block at base. */
  function Rounds(m: seq<byte>, base: nat, h: Hash, t: nat): Hash
    requires base + 64 <= |m|
  {
    if t == 0 then h else Round(t - 1, W(m, base, t - 1), Rounds(m, base, h, t - 1))
  }

  function AddHash(h: Hash, v: Hash): Hash {
    Hash(h.a + v.a, h.b + v.b, h.c + v.c, h.d + v.d, h.e + v.e)
  }

  /** The hash value after n blocks. */
  function HashBlocks(m: seq<byte>, n: nat): Hash
    requires n * 64 <= |m|
  {
    if n == 0 then H0
    else
      var h := HashBlocks(m, n - 1);
      AddHash(h, Rounds(m, (n - 1) * 64, h, 80))
  }

  function WordBytes(x: word): (s: seq<byte>)
    ensures |s| == 4
  {
    [(x >> 24) as int, ((x >> 16) & 0xff) as int, ((x >> 8) & 0xff) as int, (x & 0xff) as int]
  }

  function HashBytes(h: Hash): (s: seq<byte>)
    ensures |s| == 20
  {
    WordBytes(h.a) + WordBytes(h.b) + WordBytes(h.c) + WordBytes(h.d) + WordBytes(h.e)
  }

  /** SHA-1 of section 6.1. */
  function Digest(data: seq<byte>): (s: seq<byte>)
    ensures |s| == 20
  {
    HashBytes(HashBlocks(Padded(data), |Padded(data)| / 64))
  }

  // ---- the code ----

  /** sha1. */
  method Compute(data: seq<byte>) returns (out: seq<byte>)
    ensures out == Digest(data)
  {
    hide Rounds, HashBytes;
    var bytes := Pad(data);
    var h := Hash(0x67452301, 0xEFCDAB89, 0x98BADCFE, 0x10325476, 0xC3D2E1F0);
    var chunk := 0;
    while chunk < |bytes| / 64
      invariant 0 <= chunk <= |bytes| / 64
      invariant h == HashBlocks(bytes, chunk)
    {
      var w := Schedule(bytes, chunk * 64);
      var v := Compress(bytes, chunk * 64, w, h);
      h := AddHash(h, v);
      chunk := chunk + 1;
    }
    out := HashBytes(h);
  }

  method Pad(data: seq<byte>) returns (bytes: seq<byte>)
    ensures bytes == Padded(data)
  {
    hide ToBe, ZeroCount, LeavesLengthField;
    PaddingIsMinimal(|data|);
    bytes := data;
    bytes := bytes + [0x80];
    ghost var zeros: nat := 0;
    NotPadded(|data|, 0);
    while (|bytes| * 8) % 512 != 448
      invariant zeros <= ZeroCount(|data|)
      invariant bytes == data + [0x80] + Zeros(zeros)
      decreases ZeroCount(|data|) - zeros
    {
      NotPadded(|data|, zeros);
      bytes := bytes + [0x00];
      zeros := zeros + 1;
    }
    NotPadded(|data|, zeros);
    bytes := bytes + ToBe(|data| * 8, 8);
  }

  /** The loop condition in terms of LeavesLengthField. */
  lemma NotPadded(len: nat, z: nat)
    ensures ((len + 1 + z) * 8) % 512 != 448 <==> !LeavesLengthField(len, z)
  {
  }

  lemma WStep(m: seq<byte>, base: nat, t: nat)
    requires base + 64 <= |m|
    ensures t < 16 ==> W(m, base, t) == WordAt(m, base + t * 4)
    ensures t >= 16 ==>
      W(m, base, t) == Rotl(W(m, base, t - 3) ^ W(m, base, t - 8) ^ W(m, base, t - 14) ^ W(m, base, t - 16), 1)
  {
  }

  lemma RoundsStep(m: seq<byte>, base: nat, h: Hash, t: nat)
    requires base + 64 <= |m|
    ensures Rounds(m, base, h, 0) == h
    ensures Rounds(m, base, h, t + 1) == Round(t, W(m, base, t), Rounds(m, base, h, t))
  {
  }

  /** The two loops that fill w. */
  method Schedule(bytes: seq<byte>, base: nat) returns (w: array<word>)
    requires base + 64 <= |bytes|
    ensures fresh(w) && w.Length == 80
    ensures forall j :: 0 <= j < 80 ==> w[j] == W(bytes, base, j)
  {
    hide W, WordAt, Rotl;
    w := new word[80];
    var i := 0;
    while i < 16
      invariant 0 <= i <= 16
      invariant forall j :: 0 <= j < i ==> w[j] == W(bytes, base, j)
    {
      WStep(bytes, base, i);
      w[i] := WordAt(bytes, base + i * 4);
      i := i + 1;
    }
    while i < 80
      invariant 16 <= i <= 80
      invariant forall j :: 0 <= j < i ==> w[j] == W(bytes, base, j)
    {
      WStep(bytes, base, i);
      w[i] := Rotl(w[i - 3] ^ w[i - 8] ^ w[i - 14] ^ w[i - 16], 1);
      i := i + 1;
    }
  }

  /** The choice of f and k in round i. */
  method Select(i: nat, b: word, c: word, d: word) returns (f: word, k: word)
    ensures f == F(i, b, c, d) && k == K(i)
  {
    hide Ch, Maj, Parity, ChOr, MajOr;
    OrForms(b, c, d);
    if i <= 19 {
      f, k := ChOr(b, c, d), 0x5A827999;
    } else if i <= 39 {
      f, k := Parity(b, c, d), 0x6ED9EBA1;
    } else if i <= 59 {
      f, k := MajOr(b, c, d), 0x8F1BBCDC;
    } else {
      f, k := Parity(b, c, d), 0xCA62C1D6;
    }
  }

  /** The 80 rounds on the working variables a to e. */
  method Compress(bytes: seq<byte>, base: nat, w: array<word>, h: Hash) returns (v: Hash)
    requires base + 64 <= |bytes| && w.Length == 80
    requires forall j :: 0 <= j < 80 ==> w[j] == W(bytes, base, j)
    ensures v == Rounds(bytes, base, h, 80)
  {
    hide W, Rotl, F, K, Rounds, Sum;
    RoundsStep(bytes, base, h, 0);
    var a, b, c, d, e := h.a, h.b, h.c, h.d, h.e;
    var i := 0;
    while i < 80
      invariant 0 <= i <= 80
      invariant Hash(a, b, c, d, e) == Rounds(bytes, base, h, i)
    {
      var f, k := Select(i, b, c, d);
      RoundsStep(bytes, base, h, i);
      var temp := Sum(Rotl(a, 5), f, e, k, w[i]);
      e := d;
      d := c;
      c := Rotl(b, 30);
      b := a;
      a := temp;
      i := i + 1;
    }
    v := Hash(a, b, c, d, e);
  }
}
