/** A known answer: the digest behind the sample handshake of section 1.3 of RFC 6455, computed from literal
    schedule words and working variables. */
module Sha1Sample {
  import opened Bytes
  import opened Sha1

  /** Rotations by the three amounts, as shifts by constants. */
  function Left1(x: word): word {
    (x << 1) | (x >> 31)
  }

  function Left5(x: word): word {
    (x << 5) | (x >> 27)
  }

  function Left30(x: word): word {
    (x << 30) | (x >> 2)
  }

  lemma Rotations(x: word)
    ensures Rotl(x, 1) == Left1(x) && Rotl(x, 5) == Left5(x) && Rotl(x, 30) == Left30(x)
  {
  }

  /** One word of the schedule, from the values of the words it is made of. */
  lemma Next(m: seq<byte>, base: nat, t: nat, x3: word, x8: word, x14: word, x16: word, w: word)
    requires base + 64 <= |m| && t >= 16
    requires W(m, base, t - 3) == x3 && W(m, base, t - 8) == x8
    requires W(m, base, t - 14) == x14 && W(m, base, t - 16) == x16
    requires Left1(x3 ^ x8 ^ x14 ^ x16) == w
    ensures W(m, base, t) == w
  {
    hide W, Rotl, Left1, Left5, Left30;
    Rotations(x3 ^ x8 ^ x14 ^ x16);
    WStep(m, base, t);
  }

  /** One round, from the values of its word and of the working variables. */
  lemma Turn(m: seq<byte>, base: nat, h: Hash, t: nat, w: word, s: Hash, a: word)
    requires base + 64 <= |m| && W(m, base, t) == w && Rounds(m, base, h, t) == s
    requires Sum(Left5(s.a), F(t, s.b, s.c, s.d), s.e, K(t), w) == a
    ensures Rounds(m, base, h, t + 1) == Hash(a, s.a, Left30(s.b), s.c, s.d)
  {
    hide W, Rounds, Rotl, Left1, Left5, Left30, F, K, Sum;
    Rotations(s.a);
    Rotations(s.b);
    RoundsStep(m, base, h, t);
  }

  const H1: Hash := Hash(0x5bcf7727, 0x7327416a, 0xbe7bfbf9, 0x5a781878, 0x5e46a4e2)

  // ---- the first block ----

  predicate FirstWords0(m: seq<byte>, base: nat)
    requires base + 64 <= |m|
  {
    && W(m, base, 0) == 0x6447686c && W(m, base, 1) == 0x49484e68
    && W(m, base, 2) == 0x62584273 && W(m, base, 3) == 0x5a534275
    && W(m, base, 4) == 0x6232356a && W(m, base, 5) == 0x5a513d3d
    && W(m, base, 6) == 0x32353845 && W(m, base, 7) == 0x41464135
    && W(m, base, 8) == 0x2d453931 && W(m, base, 9) == 0x342d3437
    && W(m, base, 10) == 0x44412d39 && W(m, base, 11) == 0x3543412d
    && W(m, base, 12) == 0x43354142 && W(m, base, 13) == 0x30444338
    && W(m, base, 14) == 0x35423131 && W(m, base, 15) == 0x80000000
  }

  predicate FirstWords16(m: seq<byte>, base: nat)
    requires base + 64 <= |m|
  {
    && W(m, base, 16) == 0x363ca02c && W(m, base, 17) == 0x24e81236
    && W(m, base, 18) == 0x8856b441 && W(m, base, 19) == 0x06fb3c92
    && W(m, base, 20) == 0x6fb4bcb6 && W(m, base, 21) == 0x460b16e3
    && W(m, base, 22) == 0x599219ae && W(m, base, 23) == 0x35bf9369
    && W(m, base, 24) == 0x3267458e && W(m, base, 25) == 0xf828fd04
    && W(m, base, 26) == 0x753a96a7 && W(m, base, 27) == 0x6336f612
    && W(m, base, 28) == 0xc3d66383 && W(m, base, 29) == 0x06eb86f9
    && W(m, base, 30) == 0x73b4fd42 && W(m, base, 31) == 0xa503c5b8
  }

  predicate FirstWords32(m: seq<byte>, base: nat)
    requires base + 64 <= |m|
  {
    && W(m, base, 32) == 0x15cdae35 && W(m, base, 33) == 0x531e5dc5
    && W(m, base, 34) == 0x6fb6b7d0 && W(m, base, 35) == 0x6c16e4ac
    && W(m, base, 36) == 0x4ddd36bd && W(m, base, 37) == 0x35d36946
    && W(m, base, 38) == 0xe8ae8b9c && W(m, base, 39) == 0x4a933ad0
    && W(m, base, 40) == 0xce8628b4 && W(m, base, 41) == 0x415dba9e
    && W(m, base, 42) == 0x2792f049 && W(m, base, 43) == 0x8e9b79e7
    && W(m, base, 44) == 0x79c425c5 && W(m, base, 45) == 0x6353b49d
    && W(m, base, 46) == 0x00994218 && W(m, base, 47) == 0x8a950ed1
  }

  predicate FirstWords48(m: seq<byte>, base: nat)
    requires base + 64 <= |m|
  {
    && W(m, base, 48) == 0xaf5d0b99 && W(m, base, 49) == 0xfd9883de
    && W(m, base, 50) == 0x1ed8ffeb && W(m, base, 51) == 0xf007ff28
    && W(m, base, 52) == 0x425e3674 && W(m, base, 53) == 0x059631c0
    && W(m, base, 54) == 0xad6c3c31 && W(m, base, 55) == 0x860b71d7
    && W(m, base, 56) == 0x87bfc548 && W(m, base, 57) == 0x3e64f92d
    && W(m, base, 58) == 0x8d0ab761 && W(m, base, 59) == 0x34e1ee35
    && W(m, base, 60) == 0x0acf5108 && W(m, base, 61) == 0xc2b479da
    && W(m, base, 62) == 0x6c93370a && W(m, base, 63) == 0xf7935ba1
  }

  predicate FirstWords64(m: seq<byte>, base: nat)
    requires base + 64 <= |m|
  {
    && W(m, base, 64) == 0xe91c91c1 && W(m, base, 65) == 0xbed165a2
    && W(m, base, 66) == 0x4c3e4abe && W(m, base, 67) == 0x50d96238
    && W(m, base, 68) == 0xb6587dde && W(m, base, 69) == 0x1a2ee6e6
    && W(m, base, 70) == 0x2d335896 && W(m, base, 71) == 0xf3495d0b
    && W(m, base, 72) == 0xf30e0a1d && W(m, base, 73) == 0x32ce5459
    && W(m, base, 74) == 0x7165e3b8 && W(m, base, 75) == 0xab05ff94
    && W(m, base, 76) == 0xc5949f0b && W(m, base, 77) == 0xbcd84e4a
    && W(m, base, 78) == 0x07720392 && W(m, base, 79) == 0xff3ff806
  }

  lemma FirstSchedule16(m: seq<byte>, base: nat)
    requires base + 64 <= |m| && FirstWords0(m, base)
    ensures FirstWords16(m, base)
  {
    hide W, Rotl;
    Next(m, base, 16, 0x30444338, 0x2d453931, 0x62584273, 0x6447686c, 0x363ca02c);
    Next(m, base, 17, 0x35423131, 0x342d3437, 0x5a534275, 0x49484e68, 0x24e81236);
    Next(m, base, 18, 0x80000000, 0x44412d39, 0x6232356a, 0x62584273, 0x8856b441);
    Next(m, base, 19, 0x363ca02c, 0x3543412d, 0x5a513d3d, 0x5a534275, 0x06fb3c92);
    Next(m, base, 20, 0x24e81236, 0x43354142, 0x32353845, 0x6232356a, 0x6fb4bcb6);
    Next(m, base, 21, 0x8856b441, 0x30444338, 0x41464135, 0x5a513d3d, 0x460b16e3);
    Next(m, base, 22, 0x06fb3c92, 0x35423131, 0x2d453931, 0x32353845, 0x599219ae);
    Next(m, base, 23, 0x6fb4bcb6, 0x80000000, 0x342d3437, 0x41464135, 0x35bf9369);
    Next(m, base, 24, 0x460b16e3, 0x363ca02c, 0x44412d39, 0x2d453931, 0x3267458e);
    Next(m, base, 25, 0x599219ae, 0x24e81236, 0x3543412d, 0x342d3437, 0xf828fd04);
    Next(m, base, 26, 0x35bf9369, 0x8856b441, 0x43354142, 0x44412d39, 0x753a96a7);
    Next(m, base, 27, 0x3267458e, 0x06fb3c92, 0x30444338, 0x3543412d, 0x6336f612);
    Next(m, base, 28, 0xf828fd04, 0x6fb4bcb6, 0x35423131, 0x43354142, 0xc3d66383);
    Next(m, base, 29, 0x753a96a7, 0x460b16e3, 0x80000000, 0x30444338, 0x06eb86f9);
    Next(m, base, 30, 0x6336f612, 0x599219ae, 0x363ca02c, 0x35423131, 0x73b4fd42);
    Next(m, base, 31, 0xc3d66383, 0x35bf9369, 0x24e81236, 0x80000000, 0xa503c5b8);
  }

  lemma FirstSchedule32(m: seq<byte>, base: nat)
    requires base + 64 <= |m| && FirstWords16(m, base)
    ensures FirstWords32(m, base)
  {
    hide W, Rotl;
    Next(m, base, 32, 0x06eb86f9, 0x3267458e, 0x8856b441, 0x363ca02c, 0x15cdae35);
    Next(m, base, 33, 0x73b4fd42, 0xf828fd04, 0x06fb3c92, 0x24e81236, 0x531e5dc5);
    Next(m, base, 34, 0xa503c5b8, 0x753a96a7, 0x6fb4bcb6, 0x8856b441, 0x6fb6b7d0);
    Next(m, base, 35, 0x15cdae35, 0x6336f612, 0x460b16e3, 0x06fb3c92, 0x6c16e4ac);
    Next(m, base, 36, 0x531e5dc5, 0xc3d66383, 0x599219ae, 0x6fb4bcb6, 0x4ddd36bd);
    Next(m, base, 37, 0x6fb6b7d0, 0x06eb86f9, 0x35bf9369, 0x460b16e3, 0x35d36946);
    Next(m, base, 38, 0x6c16e4ac, 0x73b4fd42, 0x3267458e, 0x599219ae, 0xe8ae8b9c);
    Next(m, base, 39, 0x4ddd36bd, 0xa503c5b8, 0xf828fd04, 0x35bf9369, 0x4a933ad0);
    Next(m, base, 40, 0x35d36946, 0x15cdae35, 0x753a96a7, 0x3267458e, 0xce8628b4);
    Next(m, base, 41, 0xe8ae8b9c, 0x531e5dc5, 0x6336f612, 0xf828fd04, 0x415dba9e);
    Next(m, base, 42, 0x4a933ad0, 0x6fb6b7d0, 0xc3d66383, 0x753a96a7, 0x2792f049);
    Next(m, base, 43, 0xce8628b4, 0x6c16e4ac, 0x06eb86f9, 0x6336f612, 0x8e9b79e7);
    Next(m, base, 44, 0x415dba9e, 0x4ddd36bd, 0x73b4fd42, 0xc3d66383, 0x79c425c5);
    Next(m, base, 45, 0x2792f049, 0x35d36946, 0xa503c5b8, 0x06eb86f9, 0x6353b49d);
    Next(m, base, 46, 0x8e9b79e7, 0xe8ae8b9c, 0x15cdae35, 0x73b4fd42, 0x00994218);
    Next(m, base, 47, 0x79c425c5, 0x4a933ad0, 0x531e5dc5, 0xa503c5b8, 0x8a950ed1);
  }

  lemma FirstSchedule48(m: seq<byte>, base: nat)
    requires base + 64 <= |m| && FirstWords32(m, base)
    ensures FirstWords48(m, base)
  {
    hide W, Rotl;
    Next(m, base, 48, 0x6353b49d, 0xce8628b4, 0x6fb6b7d0, 0x15cdae35, 0xaf5d0b99);
    Next(m, base, 49, 0x00994218, 0x415dba9e, 0x6c16e4ac, 0x531e5dc5, 0xfd9883de);
    Next(m, base, 50, 0x8a950ed1, 0x2792f049, 0x4ddd36bd, 0x6fb6b7d0, 0x1ed8ffeb);
    Next(m, base, 51, 0xaf5d0b99, 0x8e9b79e7, 0x35d36946, 0x6c16e4ac, 0xf007ff28);
    Next(m, base, 52, 0xfd9883de, 0x79c425c5, 0xe8ae8b9c, 0x4ddd36bd, 0x425e3674);
    Next(m, base, 53, 0x1ed8ffeb, 0x6353b49d, 0x4a933ad0, 0x35d36946, 0x059631c0);
    Next(m, base, 54, 0xf007ff28, 0x00994218, 0xce8628b4, 0xe8ae8b9c, 0xad6c3c31);
    Next(m, base, 55, 0x425e3674, 0x8a950ed1, 0x415dba9e, 0x4a933ad0, 0x860b71d7);
    Next(m, base, 56, 0x059631c0, 0xaf5d0b99, 0x2792f049, 0xce8628b4, 0x87bfc548);
    Next(m, base, 57, 0xad6c3c31, 0xfd9883de, 0x8e9b79e7, 0x415dba9e, 0x3e64f92d);
    Next(m, base, 58, 0x860b71d7, 0x1ed8ffeb, 0x79c425c5, 0x2792f049, 0x8d0ab761);
    Next(m, base, 59, 0x87bfc548, 0xf007ff28, 0x6353b49d, 0x8e9b79e7, 0x34e1ee35);
    Next(m, base, 60, 0x3e64f92d, 0x425e3674, 0x00994218, 0x79c425c5, 0x0acf5108);
    Next(m, base, 61, 0x8d0ab761, 0x059631c0, 0x8a950ed1, 0x6353b49d, 0xc2b479da);
    Next(m, base, 62, 0x34e1ee35, 0xad6c3c31, 0xaf5d0b99, 0x00994218, 0x6c93370a);
    Next(m, base, 63, 0x0acf5108, 0x860b71d7, 0xfd9883de, 0x8a950ed1, 0xf7935ba1);
  }

  lemma FirstSchedule64(m: seq<byte>, base: nat)
    requires base + 64 <= |m| && FirstWords48(m, base)
    ensures FirstWords64(m, base)
  {
    hide W, Rotl;
    Next(m, base, 64, 0xc2b479da, 0x87bfc548, 0x1ed8ffeb, 0xaf5d0b99, 0xe91c91c1);
    Next(m, base, 65, 0x6c93370a, 0x3e64f92d, 0xf007ff28, 0xfd9883de, 0xbed165a2);
    Next(m, base, 66, 0xf7935ba1, 0x8d0ab761, 0x425e3674, 0x1ed8ffeb, 0x4c3e4abe);
    Next(m, base, 67, 0xe91c91c1, 0x34e1ee35, 0x059631c0, 0xf007ff28, 0x50d96238);
    Next(m, base, 68, 0xbed165a2, 0x0acf5108, 0xad6c3c31, 0x425e3674, 0xb6587dde);
    Next(m, base, 69, 0x4c3e4abe, 0xc2b479da, 0x860b71d7, 0x059631c0, 0x1a2ee6e6);
    Next(m, base, 70, 0x50d96238, 0x6c93370a, 0x87bfc548, 0xad6c3c31, 0x2d335896);
    Next(m, base, 71, 0xb6587dde, 0xf7935ba1, 0x3e64f92d, 0x860b71d7, 0xf3495d0b);
    Next(m, base, 72, 0x1a2ee6e6, 0xe91c91c1, 0x8d0ab761, 0x87bfc548, 0xf30e0a1d);
    Next(m, base, 73, 0x2d335896, 0xbed165a2, 0x34e1ee35, 0x3e64f92d, 0x32ce5459);
    Next(m, base, 74, 0xf3495d0b, 0x4c3e4abe, 0x0acf5108, 0x8d0ab761, 0x7165e3b8);
    Next(m, base, 75, 0xf30e0a1d, 0x50d96238, 0xc2b479da, 0x34e1ee35, 0xab05ff94);
    Next(m, base, 76, 0x32ce5459, 0xb6587dde, 0x6c93370a, 0x0acf5108, 0xc5949f0b);
    Next(m, base, 77, 0x7165e3b8, 0x1a2ee6e6, 0xf7935ba1, 0xc2b479da, 0xbcd84e4a);
    Next(m, base, 78, 0xab05ff94, 0x2d335896, 0xe91c91c1, 0x6c93370a, 0x07720392);
    Next(m, base, 79, 0xc5949f0b, 0xf3495d0b, 0xbed165a2, 0xf7935ba1, 0xff3ff806);
  }

  lemma FirstRounds0(m: seq<byte>, base: nat)
    requires base + 64 <= |m| && FirstWords0(m, base)
    requires Rounds(m, base, H0, 0) == Hash(0x67452301, 0xefcdab89, 0x98badcfe, 0x10325476, 0xc3d2e1f0)
    ensures Rounds(m, base, H0, 16) == Hash(0xa004c468, 0xe922cc9d, 0xab86825b, 0xd86f6caf, 0x8d33ae61)
  {
    hide W, Rounds, Rotl;
    Turn(m, base, H0, 0, 0x6447686c, Hash(0x67452301, 0xefcdab89, 0x98badcfe, 0x10325476, 0xc3d2e1f0), 0x03fc011f);
    Turn(m, base, H0, 1, 0x49484e68, Hash(0x03fc011f, 0x67452301, 0x7bf36ae2, 0x98badcfe, 0x10325476), 0x2f793f55);
    Turn(m, base, H0, 2, 0x62584273, Hash(0x2f793f55, 0x03fc011f, 0x59d148c0, 0x7bf36ae2, 0x98badcfe), 0xbe90ee8f);
    Turn(m, base, H0, 3, 0x5a534275, Hash(0xbe90ee8f, 0x2f793f55, 0xc0ff0047, 0x59d148c0, 0x7bf36ae2), 0x53e039ac);
    Turn(m, base, H0, 4, 0x6232356a, Hash(0x53e039ac, 0xbe90ee8f, 0x4bde4fd5, 0xc0ff0047, 0x59d148c0), 0xdd8c7c12);
    Turn(m, base, H0, 5, 0x5a513d3d, Hash(0xdd8c7c12, 0x53e039ac, 0xefa43ba3, 0x4bde4fd5, 0xc0ff0047), 0x7320b969);
    Turn(m, base, H0, 6, 0x32353845, Hash(0x7320b969, 0xdd8c7c12, 0x14f80e6b, 0xefa43ba3, 0x4bde4fd5), 0x73553e84);
    Turn(m, base, H0, 7, 0x41464135, Hash(0x73553e84, 0x7320b969, 0xb7631f04, 0x14f80e6b, 0xefa43ba3), 0x2e0ce601);
    Turn(m, base, H0, 8, 0x2d453931, Hash(0x2e0ce601, 0x73553e84, 0x5cc82e5a, 0xb7631f04, 0x14f80e6b), 0x32beb05a);
    Turn(m, base, H0, 9, 0x342d3437, Hash(0x32beb05a, 0x2e0ce601, 0x1cd54fa1, 0x5cc82e5a, 0xb7631f04), 0xfaad2675);
    Turn(m, base, H0, 10, 0x44412d39, Hash(0xfaad2675, 0x32beb05a, 0x4b833980, 0x1cd54fa1, 0x5cc82e5a), 0x5ff4238c);
    Turn(m, base, H0, 11, 0x3543412d, Hash(0x5ff4238c, 0xfaad2675, 0x8cafac16, 0x4b833980, 0x1cd54fa1), 0x34ceb986);
    Turn(m, base, H0, 12, 0x43354142, Hash(0x34ceb986, 0x5ff4238c, 0x7eab499d, 0x8cafac16, 0x4b833980), 0x61bdb2bf);
    Turn(m, base, H0, 13, 0x30444338, Hash(0x61bdb2bf, 0x34ceb986, 0x17fd08e3, 0x7eab499d, 0x8cafac16), 0xae1a096e);
    Turn(m, base, H0, 14, 0x35423131, Hash(0xae1a096e, 0x61bdb2bf, 0x8d33ae61, 0x17fd08e3, 0x7eab499d), 0xe922cc9d);
    Turn(m, base, H0, 15, 0x80000000, Hash(0xe922cc9d, 0xae1a096e, 0xd86f6caf, 0x8d33ae61, 0x17fd08e3), 0xa004c468);
  }

  lemma FirstRounds16(m: seq<byte>, base: nat)
    requires base + 64 <= |m| && FirstWords16(m, base)
    requires Rounds(m, base, H0, 16) == Hash(0xa004c468, 0xe922cc9d, 0xab86825b, 0xd86f6caf, 0x8d33ae61)
    ensures Rounds(m, base, H0, 32) == Hash(0xa6680a1f, 0xb7dabc8b, 0x4206d8f9, 0xc6aec70d, 0x95c7df60)
  {
    hide W, Rounds, Rotl;
    Turn(m, base, H0, 16, 0x363ca02c, Hash(0xa004c468, 0xe922cc9d, 0xab86825b, 0xd86f6caf, 0x8d33ae61), 0xd7daf575);
    Turn(m, base, H0, 17, 0x24e81236, Hash(0xd7daf575, 0xa004c468, 0x7a48b327, 0xab86825b, 0xd86f6caf), 0x7ebb296b);
    Turn(m, base, H0, 18, 0x8856b441, Hash(0x7ebb296b, 0xd7daf575, 0x2801311a, 0x7a48b327, 0xab86825b), 0x8dc510b6);
    Turn(m, base, H0, 19, 0x06fb3c92, Hash(0x8dc510b6, 0x7ebb296b, 0x75f6bd5d, 0x2801311a, 0x7a48b327), 0x091ab97c);
    Turn(m, base, H0, 20, 0x6fb4bcb6, Hash(0x091ab97c, 0x8dc510b6, 0xdfaeca5a, 0x75f6bd5d, 0x2801311a), 0x518470a3);
    Turn(m, base, H0, 21, 0x460b16e3, Hash(0x518470a3, 0x091ab97c, 0xa371442d, 0xdfaeca5a, 0x75f6bd5d), 0xd12f0b56);
    Turn(m, base, H0, 22, 0x599219ae, Hash(0xd12f0b56, 0x518470a3, 0x0246ae5f, 0xa371442d, 0xdfaeca5a), 0xbeafd554);
    Turn(m, base, H0, 23, 0x35bf9369, Hash(0xbeafd554, 0xd12f0b56, 0xd4611c28, 0x0246ae5f, 0xa371442d), 0x250e26ef);
    Turn(m, base, H0, 24, 0x3267458e, Hash(0x250e26ef, 0xbeafd554, 0xb44bc2d5, 0xd4611c28, 0x0246ae5f), 0x23d1c91b);
    Turn(m, base, H0, 25, 0xf828fd04, Hash(0x23d1c91b, 0x250e26ef, 0x2fabf555, 0xb44bc2d5, 0xd4611c28), 0x748b39a0);
    Turn(m, base, H0, 26, 0x753a96a7, Hash(0x748b39a0, 0x23d1c91b, 0xc94389bb, 0x2fabf555, 0xb44bc2d5), 0xef012f20);
    Turn(m, base, H0, 27, 0x6336f612, Hash(0xef012f20, 0x748b39a0, 0xc8f47246, 0xc94389bb, 0x2fabf555), 0x571f7d82);
    Turn(m, base, H0, 28, 0xc3d66383, Hash(0x571f7d82, 0xef012f20, 0x1d22ce68, 0xc8f47246, 0xc94389bb), 0x1abb1c37);
    Turn(m, base, H0, 29, 0x06eb86f9, Hash(0x1abb1c37, 0x571f7d82, 0x3bc04bc8, 0x1d22ce68, 0xc8f47246), 0x081b63e5);
    Turn(m, base, H0, 30, 0x73b4fd42, Hash(0x081b63e5, 0x1abb1c37, 0x95c7df60, 0x3bc04bc8, 0x1d22ce68), 0xb7dabc8b);
    Turn(m, base, H0, 31, 0xa503c5b8, Hash(0xb7dabc8b, 0x081b63e5, 0xc6aec70d, 0x95c7df60, 0x3bc04bc8), 0xa6680a1f);
  }

  lemma FirstRounds32(m: seq<byte>, base: nat)
    requires base + 64 <= |m| && FirstWords32(m, base)
    requires Rounds(m, base, H0, 32) == Hash(0xa6680a1f, 0xb7dabc8b, 0x4206d8f9, 0xc6aec70d, 0x95c7df60)
    ensures Rounds(m, base, H0, 48) == Hash(0xabe1748a, 0xdee4b7a8, 0x5cbfccd3, 0x97d7cd14, 0xdb71a8f5)
  {
    hide W, Rounds, Rotl;
    Turn(m, base, H0, 32, 0x15cdae35, Hash(0xa6680a1f, 0xb7dabc8b, 0x4206d8f9, 0xc6aec70d, 0x95c7df60), 0x1ae360a9);
    Turn(m, base, H0, 33, 0x531e5dc5, Hash(0x1ae360a9, 0xa6680a1f, 0xedf6af22, 0x4206d8f9, 0xc6aec70d), 0xeeaba35a);
    Turn(m, base, H0, 34, 0x6fb6b7d0, Hash(0xeeaba35a, 0x1ae360a9, 0xe99a0287, 0xedf6af22, 0x4206d8f9), 0x149bb4d3);
    Turn(m, base, H0, 35, 0x6c16e4ac, Hash(0x149bb4d3, 0xeeaba35a, 0x46b8d82a, 0xe99a0287, 0xedf6af22), 0x9de793c8);
    Turn(m, base, H0, 36, 0x4ddd36bd, Hash(0x9de793c8, 0x149bb4d3, 0xbbaae8d6, 0x46b8d82a, 0xe99a0287), 0x4ccd2227);
    Turn(m, base, H0, 37, 0x35d36946, Hash(0x4ccd2227, 0x9de793c8, 0xc526ed34, 0xbbaae8d6, 0x46b8d82a), 0x68760824);
    Turn(m, base, H0, 38, 0xe8ae8b9c, Hash(0x68760824, 0x4ccd2227, 0x2779e4f2, 0xc526ed34, 0xbbaae8d6), 0xd0869081);
    Turn(m, base, H0, 39, 0x4a933ad0, Hash(0xd0869081, 0x68760824, 0xd3334889, 0x2779e4f2, 0xc526ed34), 0x2ba2c83e);
    Turn(m, base, H0, 40, 0xce8628b4, Hash(0x2ba2c83e, 0xd0869081, 0x1a1d8209, 0xd3334889, 0x2779e4f2), 0xcb8c52d0);
    Turn(m, base, H0, 41, 0x415dba9e, Hash(0xcb8c52d0, 0x2ba2c83e, 0x7421a420, 0x1a1d8209, 0xd3334889), 0x4f589a44);
    Turn(m, base, H0, 42, 0x2792f049, Hash(0x4f589a44, 0xcb8c52d0, 0x8ae8b20f, 0x7421a420, 0x1a1d8209), 0x868829b7);
    Turn(m, base, H0, 43, 0x8e9b79e7, Hash(0x868829b7, 0x4f589a44, 0x32e314b4, 0x8ae8b20f, 0x7421a420), 0x6dc6a3d7);
    Turn(m, base, H0, 44, 0x79c425c5, Hash(0x6dc6a3d7, 0x868829b7, 0x13d62691, 0x32e314b4, 0x8ae8b20f), 0x5f5f3452);
    Turn(m, base, H0, 45, 0x6353b49d, Hash(0x5f5f3452, 0x6dc6a3d7, 0xe1a20a6d, 0x13d62691, 0x32e314b4), 0x72ff334d);
    Turn(m, base, H0, 46, 0x00994218, Hash(0x72ff334d, 0x5f5f3452, 0xdb71a8f5, 0xe1a20a6d, 0x13d62691), 0xdee4b7a8);
    Turn(m, base, H0, 47, 0x8a950ed1, Hash(0xdee4b7a8, 0x72ff334d, 0x97d7cd14, 0xdb71a8f5, 0xe1a20a6d), 0xabe1748a);
  }

  lemma FirstRounds48(m: seq<byte>, base: nat)
    requires base + 64 <= |m| && FirstWords48(m, base)
    requires Rounds(m, base, H0, 48) == Hash(0xabe1748a, 0xdee4b7a8, 0x5cbfccd3, 0x97d7cd14, 0xdb71a8f5)
    ensures Rounds(m, base, H0, 64) == Hash(0x685e2ff6, 0x840054d3, 0xe43c0363, 0x3350802e, 0x921cb616)
  {
    hide W, Rounds, Rotl;
    Turn(m, base, H0, 48, 0xaf5d0b99, Hash(0xabe1748a, 0xdee4b7a8, 0x5cbfccd3, 0x97d7cd14, 0xdb71a8f5), 0x7510d04f);
    Turn(m, base, H0, 49, 0xfd9883de, Hash(0x7510d04f, 0xabe1748a, 0x37b92dea, 0x5cbfccd3, 0x97d7cd14), 0x065f8486);
    Turn(m, base, H0, 50, 0x1ed8ffeb, Hash(0x065f8486, 0x7510d04f, 0xaaf85d22, 0x37b92dea, 0x5cbfccd3), 0x0e5d77c4);
    Turn(m, base, H0, 51, 0xf007ff28, Hash(0x0e5d77c4, 0x065f8486, 0xdd443413, 0xaaf85d22, 0x37b92dea), 0x10e7f671);
    Turn(m, base, H0, 52, 0x425e3674, Hash(0x10e7f671, 0x0e5d77c4, 0x8197e121, 0xdd443413, 0xaaf85d22), 0x26c69395);
    Turn(m, base, H0, 53, 0x059631c0, Hash(0x26c69395, 0x10e7f671, 0x03975df1, 0x8197e121, 0xdd443413), 0x4c608ac4);
    Turn(m, base, H0, 54, 0xad6c3c31, Hash(0x4c608ac4, 0x26c69395, 0x4439fd9c, 0x03975df1, 0x8197e121), 0x50c9104c);
    Turn(m, base, H0, 55, 0x860b71d7, Hash(0x50c9104c, 0x4c608ac4, 0x49b1a4e5, 0x4439fd9c, 0x03975df1), 0x7e1242f2);
    Turn(m, base, H0, 56, 0x87bfc548, Hash(0x7e1242f2, 0x50c9104c, 0x131822b1, 0x49b1a4e5, 0x4439fd9c), 0x6ef6fef4);
    Turn(m, base, H0, 57, 0x3e64f92d, Hash(0x6ef6fef4, 0x7e1242f2, 0x14324413, 0x131822b1, 0x49b1a4e5), 0x0c247c2e);
    Turn(m, base, H0, 58, 0x8d0ab761, Hash(0x0c247c2e, 0x6ef6fef4, 0x9f8490bc, 0x14324413, 0x131822b1), 0xd284f163);
    Turn(m, base, H0, 59, 0x34e1ee35, Hash(0xd284f163, 0x0c247c2e, 0x1bbdbfbd, 0x9f8490bc, 0x14324413), 0x4872d85a);
    Turn(m, base, H0, 60, 0x0acf5108, Hash(0x4872d85a, 0xd284f163, 0x83091f0b, 0x1bbdbfbd, 0x9f8490bc), 0xcd4200b8);
    Turn(m, base, H0, 61, 0xc2b479da, Hash(0xcd4200b8, 0x4872d85a, 0xf4a13c58, 0x83091f0b, 0x1bbdbfbd), 0x90f00d8f);
    Turn(m, base, H0, 62, 0x6c93370a, Hash(0x90f00d8f, 0xcd4200b8, 0x921cb616, 0xf4a13c58, 0x83091f0b), 0x840054d3);
    Turn(m, base, H0, 63, 0xf7935ba1, Hash(0x840054d3, 0x90f00d8f, 0x3350802e, 0x921cb616, 0xf4a13c58), 0x685e2ff6);
  }

  lemma FirstRounds64(m: seq<byte>, base: nat)
    requires base + 64 <= |m| && FirstWords64(m, base)
    requires Rounds(m, base, H0, 64) == Hash(0x685e2ff6, 0x840054d3, 0xe43c0363, 0x3350802e, 0x921cb616)
    ensures Rounds(m, base, H0, 80) == Hash(0xf48a5426, 0x835995e1, 0x25c11efb, 0x4a45c402, 0x9a73c2f2)
  {
    hide W, Rounds, Rotl;
    Turn(m, base, H0, 64, 0xe91c91c1, Hash(0x685e2ff6, 0x840054d3, 0xe43c0363, 0x3350802e, 0x921cb616), 0xa4cee018);
    Turn(m, base, H0, 65, 0xbed165a2, Hash(0xa4cee018, 0x685e2ff6, 0xe1001534, 0xe43c0363, 0x3350802e), 0xc3c2e45b);
    Turn(m, base, H0, 66, 0x4c3e4abe, Hash(0xc3c2e45b, 0xa4cee018, 0x9a178bfd, 0xe1001534, 0xe43c0363), 0x53131a40);
    Turn(m, base, H0, 67, 0x50d96238, Hash(0x53131a40, 0xc3c2e45b, 0x2933b806, 0x9a178bfd, 0xe1001534), 0xcf8658ec);
    Turn(m, base, H0, 68, 0xb6587dde, Hash(0xcf8658ec, 0x53131a40, 0xf0f0b916, 0x2933b806, 0x9a178bfd), 0x966e049a);
    Turn(m, base, H0, 69, 0x1a2ee6e6, Hash(0x966e049a, 0xcf8658ec, 0x14c4c690, 0xf0f0b916, 0x2933b806), 0x07381b7e);
    Turn(m, base, H0, 70, 0x2d335896, Hash(0x07381b7e, 0x966e049a, 0x33e1963b, 0x14c4c690, 0xf0f0b916), 0x80d59773);
    Turn(m, base, H0, 71, 0xf3495d0b, Hash(0x80d59773, 0x07381b7e, 0xa59b8126, 0x33e1963b, 0x14c4c690), 0x7e65e044);
    Turn(m, base, H0, 72, 0xf30e0a1d, Hash(0x7e65e044, 0x80d59773, 0x81ce06df, 0xa59b8126, 0x33e1963b), 0x628e7b47);
    Turn(m, base, H0, 73, 0x32ce5459, Hash(0x628e7b47, 0x7e65e044, 0xe03565dc, 0x81ce06df, 0xa59b8126), 0x143a8388);
    Turn(m, base, H0, 74, 0x7165e3b8, Hash(0x143a8388, 0x628e7b47, 0x1f997811, 0xe03565dc, 0x81ce06df), 0xe20983f9);
    Turn(m, base, H0, 75, 0xab05ff94, Hash(0xe20983f9, 0x143a8388, 0xd8a39ed1, 0x1f997811, 0xe03565dc), 0x69cf0bca);
    Turn(m, base, H0, 76, 0xc5949f0b, Hash(0x69cf0bca, 0xe20983f9, 0x050ea0e2, 0xd8a39ed1, 0x1f997811), 0x29171009);
    Turn(m, base, H0, 77, 0xbcd84e4a, Hash(0x29171009, 0x69cf0bca, 0x788260fe, 0x050ea0e2, 0xd8a39ed1), 0x97047bec);
    Turn(m, base, H0, 78, 0x07720392, Hash(0x97047bec, 0x29171009, 0x9a73c2f2, 0x788260fe, 0x050ea0e2), 0x835995e1);
    Turn(m, base, H0, 79, 0xff3ff806, Hash(0x835995e1, 0x97047bec, 0x4a45c402, 0x9a73c2f2, 0x788260fe), 0xf48a5426);
  }

  // ---- the second block ----

  predicate SecondWords0(m: seq<byte>, base: nat)
    requires base + 64 <= |m|
  {
    && W(m, base, 0) == 0x00000000 && W(m, base, 1) == 0x00000000
    && W(m, base, 2) == 0x00000000 && W(m, base, 3) == 0x00000000
    && W(m, base, 4) == 0x00000000 && W(m, base, 5) == 0x00000000
    && W(m, base, 6) == 0x00000000 && W(m, base, 7) == 0x00000000
    && W(m, base, 8) == 0x00000000 && W(m, base, 9) == 0x00000000
    && W(m, base, 10) == 0x00000000 && W(m, base, 11) == 0x00000000
    && W(m, base, 12) == 0x00000000 && W(m, base, 13) == 0x00000000
    && W(m, base, 14) == 0x00000000 && W(m, base, 15) == 0x000001e0
  }

  predicate SecondWords16(m: seq<byte>, base: nat)
    requires base + 64 <= |m|
  {
    && W(m, base, 16) == 0x00000000 && W(m, base, 17) == 0x00000000
    && W(m, base, 18) == 0x000003c0 && W(m, base, 19) == 0x00000000
    && W(m, base, 20) == 0x00000000 && W(m, base, 21) == 0x00000780
    && W(m, base, 22) == 0x00000000 && W(m, base, 23) == 0x000003c0
    && W(m, base, 24) == 0x00000f00 && W(m, base, 25) == 0x00000000
    && W(m, base, 26) == 0x00000000 && W(m, base, 27) == 0x00001e00
    && W(m, base, 28) == 0x00000000 && W(m, base, 29) == 0x00000cc0
    && W(m, base, 30) == 0x00003c00 && W(m, base, 31) == 0x00000440
  }

  predicate SecondWords32(m: seq<byte>, base: nat)
    requires base + 64 <= |m|
  {
    && W(m, base, 32) == 0x00000000 && W(m, base, 33) == 0x00007800
    && W(m, base, 34) == 0x00000f00 && W(m, base, 35) == 0x00003300
    && W(m, base, 36) == 0x0000f000 && W(m, base, 37) == 0x00000f00
    && W(m, base, 38) == 0x00000000 && W(m, base, 39) == 0x0001ef00
    && W(m, base, 40) == 0x00000000 && W(m, base, 41) == 0x0000cc00
    && W(m, base, 42) == 0x0003c000 && W(m, base, 43) == 0x00004380
    && W(m, base, 44) == 0x00000000 && W(m, base, 45) == 0x00078f00
    && W(m, base, 46) == 0x0000ff00 && W(m, base, 47) == 0x00032680
  }

  predicate SecondWords48(m: seq<byte>, base: nat)
    requires base + 64 <= |m|
  {
    && W(m, base, 48) == 0x000f0000 && W(m, base, 49) == 0x0000f000
    && W(m, base, 50) == 0x00003300 && W(m, base, 51) == 0x001eff00
    && W(m, base, 52) == 0x00000000 && W(m, base, 53) == 0x000cb800
    && W(m, base, 54) == 0x003c0000 && W(m, base, 55) == 0x00040b00
    && W(m, base, 56) == 0x0000f000 && W(m, base, 57) == 0x0078ff00
    && W(m, base, 58) == 0x000ff000 && W(m, base, 59) == 0x00338700
    && W(m, base, 60) == 0x00f00000 && W(m, base, 61) == 0x000fc300
    && W(m, base, 62) == 0x0000f000 && W(m, base, 63) == 0x01efbb00
  }

  predicate SecondWords64(m: seq<byte>, base: nat)
    requires base + 64 <= |m|
  {
    && W(m, base, 64) == 0x00000000 && W(m, base, 65) == 0x00cc0000
    && W(m, base, 66) == 0x03c0f000 && W(m, base, 67) == 0x00438000
    && W(m, base, 68) == 0x00000000 && W(m, base, 69) == 0x078f0000
    && W(m, base, 70) == 0x00ff0000 && W(m, base, 71) == 0x03269e00
    && W(m, base, 72) == 0x0f000000 && W(m, base, 73) == 0x00f0f000
    && W(m, base, 74) == 0x00333c00 && W(m, base, 75) == 0x1eff8800
    && W(m, base, 76) == 0x00000000 && W(m, base, 77) == 0x0cb88800
    && W(m, base, 78) == 0x3c00f000 && W(m, base, 79) == 0x040a4a00
  }

  lemma SecondSchedule16(m: seq<byte>, base: nat)
    requires base + 64 <= |m| && SecondWords0(m, base)
    ensures SecondWords16(m, base)
  {
    hide W, Rotl;
    Next(m, base, 16, 0x00000000, 0x00000000, 0x00000000, 0x00000000, 0x00000000);
    Next(m, base, 17, 0x00000000, 0x00000000, 0x00000000, 0x00000000, 0x00000000);
    Next(m, base, 18, 0x000001e0, 0x00000000, 0x00000000, 0x00000000, 0x000003c0);
    Next(m, base, 19, 0x00000000, 0x00000000, 0x00000000, 0x00000000, 0x00000000);
    Next(m, base, 20, 0x00000000, 0x00000000, 0x00000000, 0x00000000, 0x00000000);
    Next(m, base, 21, 0x000003c0, 0x00000000, 0x00000000, 0x00000000, 0x00000780);
    Next(m, base, 22, 0x00000000, 0x00000000, 0x00000000, 0x00000000, 0x00000000);
    Next(m, base, 23, 0x00000000, 0x000001e0, 0x00000000, 0x00000000, 0x000003c0);
    Next(m, base, 24, 0x00000780, 0x00000000, 0x00000000, 0x00000000, 0x00000f00);
    Next(m, base, 25, 0x00000000, 0x00000000, 0x00000000, 0x00000000, 0x00000000);
    Next(m, base, 26, 0x000003c0, 0x000003c0, 0x00000000, 0x00000000, 0x00000000);
    Next(m, base, 27, 0x00000f00, 0x00000000, 0x00000000, 0x00000000, 0x00001e00);
    Next(m, base, 28, 0x00000000, 0x00000000, 0x00000000, 0x00000000, 0x00000000);
    Next(m, base, 29, 0x00000000, 0x00000780, 0x000001e0, 0x00000000, 0x00000cc0);
    Next(m, base, 30, 0x00001e00, 0x00000000, 0x00000000, 0x00000000, 0x00003c00);
    Next(m, base, 31, 0x00000000, 0x000003c0, 0x00000000, 0x000001e0, 0x00000440);
  }

  lemma SecondSchedule32(m: seq<byte>, base: nat)
    requires base + 64 <= |m| && SecondWords16(m, base)
    ensures SecondWords32(m, base)
  {
    hide W, Rotl;
    Next(m, base, 32, 0x00000cc0, 0x00000f00, 0x000003c0, 0x00000000, 0x00000000);
    Next(m, base, 33, 0x00003c00, 0x00000000, 0x00000000, 0x00000000, 0x00007800);
    Next(m, base, 34, 0x00000440, 0x00000000, 0x00000000, 0x000003c0, 0x00000f00);
    Next(m, base, 35, 0x00000000, 0x00001e00, 0x00000780, 0x00000000, 0x00003300);
    Next(m, base, 36, 0x00007800, 0x00000000, 0x00000000, 0x00000000, 0x0000f000);
    Next(m, base, 37, 0x00000f00, 0x00000cc0, 0x000003c0, 0x00000780, 0x00000f00);
    Next(m, base, 38, 0x00003300, 0x00003c00, 0x00000f00, 0x00000000, 0x00000000);
    Next(m, base, 39, 0x0000f000, 0x00000440, 0x00000000, 0x000003c0, 0x0001ef00);
    Next(m, base, 40, 0x00000f00, 0x00000000, 0x00000000, 0x00000f00, 0x00000000);
    Next(m, base, 41, 0x00000000, 0x00007800, 0x00001e00, 0x00000000, 0x0000cc00);
    Next(m, base, 42, 0x0001ef00, 0x00000f00, 0x00000000, 0x00000000, 0x0003c000);
    Next(m, base, 43, 0x00000000, 0x00003300, 0x00000cc0, 0x00001e00, 0x00004380);
    Next(m, base, 44, 0x0000cc00, 0x0000f000, 0x00003c00, 0x00000000, 0x00000000);
    Next(m, base, 45, 0x0003c000, 0x00000f00, 0x00000440, 0x00000cc0, 0x00078f00);
    Next(m, base, 46, 0x00004380, 0x00000000, 0x00000000, 0x00003c00, 0x0000ff00);
    Next(m, base, 47, 0x00000000, 0x0001ef00, 0x00007800, 0x00000440, 0x00032680);
  }

  lemma SecondSchedule48(m: seq<byte>, base: nat)
    requires base + 64 <= |m| && SecondWords32(m, base)
    ensures SecondWords48(m, base)
  {
    hide W, Rotl;
    Next(m, base, 48, 0x00078f00, 0x00000000, 0x00000f00, 0x00000000, 0x000f0000);
    Next(m, base, 49, 0x0000ff00, 0x0000cc00, 0x00003300, 0x00007800, 0x0000f000);
    Next(m, base, 50, 0x00032680, 0x0003c000, 0x0000f000, 0x00000f00, 0x00003300);
    Next(m, base, 51, 0x000f0000, 0x00004380, 0x00000f00, 0x00003300, 0x001eff00);
    Next(m, base, 52, 0x0000f000, 0x00000000, 0x00000000, 0x0000f000, 0x00000000);
    Next(m, base, 53, 0x00003300, 0x00078f00, 0x0001ef00, 0x00000f00, 0x000cb800);
    Next(m, base, 54, 0x001eff00, 0x0000ff00, 0x00000000, 0x00000000, 0x003c0000);
    Next(m, base, 55, 0x00000000, 0x00032680, 0x0000cc00, 0x0001ef00, 0x00040b00);
    Next(m, base, 56, 0x000cb800, 0x000f0000, 0x0003c000, 0x00000000, 0x0000f000);
    Next(m, base, 57, 0x003c0000, 0x0000f000, 0x00004380, 0x0000cc00, 0x0078ff00);
    Next(m, base, 58, 0x00040b00, 0x00003300, 0x00000000, 0x0003c000, 0x000ff000);
    Next(m, base, 59, 0x0000f000, 0x001eff00, 0x00078f00, 0x00004380, 0x00338700);
    Next(m, base, 60, 0x0078ff00, 0x00000000, 0x0000ff00, 0x00000000, 0x00f00000);
    Next(m, base, 61, 0x000ff000, 0x000cb800, 0x00032680, 0x00078f00, 0x000fc300);
    Next(m, base, 62, 0x00338700, 0x003c0000, 0x000f0000, 0x0000ff00, 0x0000f000);
    Next(m, base, 63, 0x00f00000, 0x00040b00, 0x0000f000, 0x00032680, 0x01efbb00);
  }

  lemma SecondSchedule64(m: seq<byte>, base: nat)
    requires base + 64 <= |m| && SecondWords48(m, base)
    ensures SecondWords64(m, base)
  {
    hide W, Rotl;
    Next(m, base, 64, 0x000fc300, 0x0000f000, 0x00003300, 0x000f0000, 0x00000000);
    Next(m, base, 65, 0x0000f000, 0x0078ff00, 0x001eff00, 0x0000f000, 0x00cc0000);
    Next(m, base, 66, 0x01efbb00, 0x000ff000, 0x00000000, 0x00003300, 0x03c0f000);
    Next(m, base, 67, 0x00000000, 0x00338700, 0x000cb800, 0x001eff00, 0x00438000);
    Next(m, base, 68, 0x00cc0000, 0x00f00000, 0x003c0000, 0x00000000, 0x00000000);
    Next(m, base, 69, 0x03c0f000, 0x000fc300, 0x00040b00, 0x000cb800, 0x078f0000);
    Next(m, base, 70, 0x00438000, 0x0000f000, 0x0000f000, 0x003c0000, 0x00ff0000);
    Next(m, base, 71, 0x00000000, 0x01efbb00, 0x0078ff00, 0x00040b00, 0x03269e00);
    Next(m, base, 72, 0x078f0000, 0x00000000, 0x000ff000, 0x0000f000, 0x0f000000);
    Next(m, base, 73, 0x00ff0000, 0x00cc0000, 0x00338700, 0x0078ff00, 0x00f0f000);
    Next(m, base, 74, 0x03269e00, 0x03c0f000, 0x00f00000, 0x000ff000, 0x00333c00);
    Next(m, base, 75, 0x0f000000, 0x00438000, 0x000fc300, 0x00338700, 0x1eff8800);
    Next(m, base, 76, 0x00f0f000, 0x00000000, 0x0000f000, 0x00f00000, 0x00000000);
    Next(m, base, 77, 0x00333c00, 0x078f0000, 0x01efbb00, 0x000fc300, 0x0cb88800);
    Next(m, base, 78, 0x1eff8800, 0x00ff0000, 0x00000000, 0x0000f000, 0x3c00f000);
    Next(m, base, 79, 0x00000000, 0x03269e00, 0x00cc0000, 0x01efbb00, 0x040a4a00);
  }

  lemma SecondRounds0(m: seq<byte>, base: nat)
    requires base + 64 <= |m| && SecondWords0(m, base)
    requires Rounds(m, base, H1, 0) == Hash(0x5bcf7727, 0x7327416a, 0xbe7bfbf9, 0x5a781878, 0x5e46a4e2)
    ensures Rounds(m, base, H1, 16) == Hash(0x986df268, 0x990b7be7, 0xab50fce7, 0x195db4b7, 0x4941806b)
  {
    hide W, Rounds, Rotl;
    Turn(m, base, H1, 0, 0x00000000, Hash(0x5bcf7727, 0x7327416a, 0xbe7bfbf9, 0x5a781878, 0x5e46a4e2), 0x6d335cde);
    Turn(m, base, H1, 1, 0x00000000, Hash(0x6d335cde, 0x5bcf7727, 0x9cc9d05a, 0xbe7bfbf9, 0x5a781878), 0x186006b8);
    Turn(m, base, H1, 2, 0x00000000, Hash(0x186006b8, 0x6d335cde, 0xd6f3ddc9, 0x9cc9d05a, 0xbe7bfbf9), 0xf9fb295d);
    Turn(m, base, H1, 3, 0x00000000, Hash(0xf9fb295d, 0x186006b8, 0x9b4cd737, 0xd6f3ddc9, 0x9cc9d05a), 0x15855523);
    Turn(m, base, H1, 4, 0x00000000, Hash(0x15855523, 0xf9fb295d, 0x061801ae, 0x9b4cd737, 0xd6f3ddc9), 0xe43dd2f2);
    Turn(m, base, H1, 5, 0x00000000, Hash(0xe43dd2f2, 0x15855523, 0x7e7eca57, 0x061801ae, 0x9b4cd737), 0x93a5efbb);
    Turn(m, base, H1, 6, 0x00000000, Hash(0x93a5efbb, 0xe43dd2f2, 0xc5615548, 0x7e7eca57, 0x061801ae), 0xb3bbcafe);
    Turn(m, base, H1, 7, 0x00000000, Hash(0xb3bbcafe, 0x93a5efbb, 0xb90f74bc, 0xc5615548, 0x7e7eca57), 0x25c018be);
    Turn(m, base, H1, 8, 0x00000000, Hash(0x25c018be, 0xb3bbcafe, 0xe4e97bee, 0xb90f74bc, 0xc5615548), 0x80946593);
    Turn(m, base, H1, 9, 0x00000000, Hash(0x80946593, 0x25c018be, 0xaceef2bf, 0xe4e97bee, 0xb90f74bc), 0x0b0814c3);
    Turn(m, base, H1, 10, 0x00000000, Hash(0x0b0814c3, 0x80946593, 0x8970062f, 0xaceef2bf, 0xe4e97bee), 0x4ce92417);
    Turn(m, base, H1, 11, 0x00000000, Hash(0x4ce92417, 0x0b0814c3, 0xe0251964, 0x8970062f, 0xaceef2bf), 0x250601ad);
    Turn(m, base, H1, 12, 0x00000000, Hash(0x250601ad, 0x4ce92417, 0xc2c20530, 0xe0251964, 0x8970062f), 0x6576d2dc);
    Turn(m, base, H1, 13, 0x00000000, Hash(0x6576d2dc, 0x250601ad, 0xd33a4905, 0xc2c20530, 0xe0251964), 0xad43f39e);
    Turn(m, base, H1, 14, 0x00000000, Hash(0xad43f39e, 0x6576d2dc, 0x4941806b, 0xd33a4905, 0xc2c20530), 0x990b7be7);
    Turn(m, base, H1, 15, 0x000001e0, Hash(0x990b7be7, 0xad43f39e, 0x195db4b7, 0x4941806b, 0xd33a4905), 0x986df268);
  }

  lemma SecondRounds16(m: seq<byte>, base: nat)
    requires base + 64 <= |m| && SecondWords16(m, base)
    requires Rounds(m, base, H1, 16) == Hash(0x986df268, 0x990b7be7, 0xab50fce7, 0x195db4b7, 0x4941806b)
    ensures Rounds(m, base, H1, 32) == Hash(0x3cf6eb58, 0xf4ddd7b7, 0xc90fb815, 0xbd5f2d4f, 0xe4c9f7db)
  {
    hide W, Rounds, Rotl;
    Turn(m, base, H1, 16, 0x00000000, Hash(0x986df268, 0x990b7be7, 0xab50fce7, 0x195db4b7, 0x4941806b), 0x3ad7440e);
    Turn(m, base, H1, 17, 0x00000000, Hash(0x3ad7440e, 0x986df268, 0xe642def9, 0xab50fce7, 0x195db4b7), 0x72198f06);
    Turn(m, base, H1, 18, 0x000003c0, Hash(0x72198f06, 0x3ad7440e, 0x261b7c9a, 0xe642def9, 0xab50fce7), 0x2f193a09);
    Turn(m, base, H1, 19, 0x00000000, Hash(0x2f193a09, 0x72198f06, 0x8eb5d103, 0x261b7c9a, 0xe642def9), 0x2a008b51);
    Turn(m, base, H1, 20, 0x00000000, Hash(0x2a008b51, 0x2f193a09, 0x9c8663c1, 0x8eb5d103, 0x261b7c9a), 0x12315b2b);
    Turn(m, base, H1, 21, 0x00000780, Hash(0x12315b2b, 0x2a008b51, 0x4bc64e82, 0x9c8663c1, 0x8eb5d103), 0x40fbcf98);
    Turn(m, base, H1, 22, 0x00000000, Hash(0x40fbcf98, 0x12315b2b, 0x4a8022d4, 0x4bc64e82, 0x9c8663c1), 0x3e5179e7);
    Turn(m, base, H1, 23, 0x000003c0, Hash(0x3e5179e7, 0x40fbcf98, 0xc48c56ca, 0x4a8022d4, 0x4bc64e82), 0x53c73650);
    Turn(m, base, H1, 24, 0x00000f00, Hash(0x53c73650, 0x3e5179e7, 0x103ef3e6, 0xc48c56ca, 0x4a8022d4), 0x1d24c44a);
    Turn(m, base, H1, 25, 0x00000000, Hash(0x1d24c44a, 0x53c73650, 0xcf945e79, 0x103ef3e6, 0xc48c56ca), 0x646c677d);
    Turn(m, base, H1, 26, 0x00000000, Hash(0x646c677d, 0x1d24c44a, 0x14f1cd94, 0xcf945e79, 0x103ef3e6), 0xd2e726da);
    Turn(m, base, H1, 27, 0x00001e00, Hash(0xd2e726da, 0x646c677d, 0x87493112, 0x14f1cd94, 0xcf945e79), 0x9327df6f);
    Turn(m, base, H1, 28, 0x00000000, Hash(0x9327df6f, 0xd2e726da, 0x591b19df, 0x87493112, 0x14f1cd94), 0xf57cb53e);
    Turn(m, base, H1, 29, 0x00000cc0, Hash(0xf57cb53e, 0x9327df6f, 0xb4b9c9b6, 0x591b19df, 0x87493112), 0x243ee057);
    Turn(m, base, H1, 30, 0x00003c00, Hash(0x243ee057, 0xf57cb53e, 0xe4c9f7db, 0xb4b9c9b6, 0x591b19df), 0xf4ddd7b7);
    Turn(m, base, H1, 31, 0x00000440, Hash(0xf4ddd7b7, 0x243ee057, 0xbd5f2d4f, 0xe4c9f7db, 0xb4b9c9b6), 0x3cf6eb58);
  }

  lemma SecondRounds32(m: seq<byte>, base: nat)
    requires base + 64 <= |m| && SecondWords32(m, base)
    requires Rounds(m, base, H1, 32) == Hash(0x3cf6eb58, 0xf4ddd7b7, 0xc90fb815, 0xbd5f2d4f, 0xe4c9f7db)
    ensures Rounds(m, base, H1, 48) == Hash(0xa3ef857e, 0xc8cda3da, 0xcef6480e, 0xff1ef4d7, 0xc7a4d2b3)
  {
    hide W, Rounds, Rotl;
    Turn(m, base, H1, 32, 0x00000000, Hash(0x3cf6eb58, 0xf4ddd7b7, 0xc90fb815, 0xbd5f2d4f, 0xe4c9f7db), 0x730e9170);
    Turn(m, base, H1, 33, 0x00007800, Hash(0x730e9170, 0x3cf6eb58, 0xfd3775ed, 0xc90fb815, 0xbd5f2d4f), 0x96d9e59e);
    Turn(m, base, H1, 34, 0x00000f00, Hash(0x96d9e59e, 0x730e9170, 0x0f3dbad6, 0xfd3775ed, 0xc90fb815), 0x942ac4d3);
    Turn(m, base, H1, 35, 0x00003300, Hash(0x942ac4d3, 0x96d9e59e, 0x1cc3a45c, 0x0f3dbad6, 0xfd3775ed), 0x76922a14);
    Turn(m, base, H1, 36, 0x0000f000, Hash(0x76922a14, 0x942ac4d3, 0xa5b67967, 0x1cc3a45c, 0x0f3dbad6), 0x7dbcf2ed);
    Turn(m, base, H1, 37, 0x00000f00, Hash(0x7dbcf2ed, 0x76922a14, 0xe50ab134, 0xa5b67967, 0x1cc3a45c), 0x796adef3);
    Turn(m, base, H1, 38, 0x00000000, Hash(0x796adef3, 0x7dbcf2ed, 0x1da48a85, 0xe50ab134, 0xa5b67967), 0xc6ff0cd3);
    Turn(m, base, H1, 39, 0x0001ef00, Hash(0xc6ff0cd3, 0x796adef3, 0x5f6f3cbb, 0x1da48a85, 0xe50ab134), 0x6f698f1a);
    Turn(m, base, H1, 40, 0x00000000, Hash(0x6f698f1a, 0xc6ff0cd3, 0xde5ab7bc, 0x5f6f3cbb, 0x1da48a85), 0x78716769);
    Turn(m, base, H1, 41, 0x0000cc00, Hash(0x78716769, 0x6f698f1a, 0xf1bfc334, 0xde5ab7bc, 0x5f6f3cbb), 0xfc343a02);
    Turn(m, base, H1, 42, 0x0003c000, Hash(0xfc343a02, 0x78716769, 0x9bda63c6, 0xf1bfc334, 0xde5ab7bc), 0xedfcd85b);
    Turn(m, base, H1, 43, 0x00004380, Hash(0xedfcd85b, 0xfc343a02, 0x5e1c59da, 0x9bda63c6, 0xf1bfc334), 0x1e934acf);
    Turn(m, base, H1, 44, 0x00000000, Hash(0x1e934acf, 0xedfcd85b, 0xbf0d0e80, 0x5e1c59da, 0x9bda63c6), 0xfc7bd35f);
    Turn(m, base, H1, 45, 0x00078f00, Hash(0xfc7bd35f, 0x1e934acf, 0xfb7f3616, 0xbf0d0e80, 0x5e1c59da), 0x3bd9203b);
    Turn(m, base, H1, 46, 0x0000ff00, Hash(0x3bd9203b, 0xfc7bd35f, 0xc7a4d2b3, 0xfb7f3616, 0xbf0d0e80), 0xc8cda3da);
    Turn(m, base, H1, 47, 0x00032680, Hash(0xc8cda3da, 0x3bd9203b, 0xff1ef4d7, 0xc7a4d2b3, 0xfb7f3616), 0xa3ef857e);
  }

  lemma SecondRounds48(m: seq<byte>, base: nat)
    requires base + 64 <= |m| && SecondWords48(m, base)
    requires Rounds(m, base, H1, 48) == Hash(0xa3ef857e, 0xc8cda3da, 0xcef6480e, 0xff1ef4d7, 0xc7a4d2b3)
    ensures Rounds(m, base, H1, 64) == Hash(0xa5937450, 0xd5ef1ed7, 0xc444cbe3, 0xddd22788, 0x558467c6)
  {
    hide W, Rounds, Rotl;
    Turn(m, base, H1, 48, 0x000f0000, Hash(0xa3ef857e, 0xc8cda3da, 0xcef6480e, 0xff1ef4d7, 0xc7a4d2b3), 0xa39f2041);
    Turn(m, base, H1, 49, 0x0000f000, Hash(0xa39f2041, 0xa3ef857e, 0xb23368f6, 0xcef6480e, 0xff1ef4d7), 0xa516f265);
    Turn(m, base, H1, 50, 0x00003300, Hash(0xa516f265, 0xa39f2041, 0xa8fbe15f, 0xb23368f6, 0xcef6480e), 0xa3abe4f5);
    Turn(m, base, H1, 51, 0x001eff00, Hash(0xa3abe4f5, 0xa516f265, 0x68e7c810, 0xa8fbe15f, 0xb23368f6), 0x5fe2a3db);
    Turn(m, base, H1, 52, 0x00000000, Hash(0x5fe2a3db, 0xa3abe4f5, 0x6945bc99, 0x68e7c810, 0xa8fbe15f), 0x9e540637);
    Turn(m, base, H1, 53, 0x000cb800, Hash(0x9e540637, 0x5fe2a3db, 0x68eaf93d, 0x6945bc99, 0x68e7c810), 0x2c73bd78);
    Turn(m, base, H1, 54, 0x003c0000, Hash(0x2c73bd78, 0x9e540637, 0xd7f8a8f6, 0x68eaf93d, 0x6945bc99), 0x660dd0b1);
    Turn(m, base, H1, 55, 0x00040b00, Hash(0x660dd0b1, 0x2c73bd78, 0xe795018d, 0xd7f8a8f6, 0x68eaf93d), 0xa1b68141);
    Turn(m, base, H1, 56, 0x0000f000, Hash(0xa1b68141, 0x660dd0b1, 0x0b1cef5e, 0xe795018d, 0xd7f8a8f6), 0x05033fa3);
    Turn(m, base, H1, 57, 0x0078ff00, Hash(0x05033fa3, 0xa1b68141, 0x5983742c, 0x0b1cef5e, 0xe795018d), 0x21289715);
    Turn(m, base, H1, 58, 0x000ff000, Hash(0x21289715, 0x05033fa3, 0x686da050, 0x5983742c, 0x0b1cef5e), 0x085eb2fe);
    Turn(m, base, H1, 59, 0x00338700, Hash(0x085eb2fe, 0x21289715, 0xc140cfe8, 0x686da050, 0x5983742c), 0x56119f19);
    Turn(m, base, H1, 60, 0x00f00000, Hash(0x56119f19, 0x085eb2fe, 0x484a25c5, 0xc140cfe8, 0x686da050), 0x77489e23);
    Turn(m, base, H1, 61, 0x000fc300, Hash(0x77489e23, 0x56119f19, 0x8217acbf, 0x484a25c5, 0xc140cfe8), 0x11132f8f);
    Turn(m, base, H1, 62, 0x0000f000, Hash(0x11132f8f, 0x77489e23, 0x558467c6, 0x8217acbf, 0x484a25c5), 0xd5ef1ed7);
    Turn(m, base, H1, 63, 0x01efbb00, Hash(0xd5ef1ed7, 0x11132f8f, 0xddd22788, 0x558467c6, 0x8217acbf), 0xa5937450);
  }

  lemma SecondRounds64(m: seq<byte>, base: nat)
    requires base + 64 <= |m| && SecondWords64(m, base)
    requires Rounds(m, base, H1, 64) == Hash(0xa5937450, 0xd5ef1ed7, 0xc444cbe3, 0xddd22788, 0x558467c6)
    ensures Rounds(m, base, H1, 80) == Hash(0x57aad805, 0x4d3b0dac, 0xd27a4a0d, 0x74c040cd, 0x54782008)
  {
    hide W, Rounds, Rotl;
    Turn(m, base, H1, 64, 0x00000000, Hash(0xa5937450, 0xd5ef1ed7, 0xc444cbe3, 0xddd22788, 0x558467c6), 0x9ecfa66c);
    Turn(m, base, H1, 65, 0x00cc0000, Hash(0x9ecfa66c, 0xa5937450, 0xf57bc7b5, 0xc444cbe3, 0xddd22788), 0x17a22ef7);
    Turn(m, base, H1, 66, 0x03c0f000, Hash(0x17a22ef7, 0x9ecfa66c, 0x2964dd14, 0xf57bc7b5, 0xc444cbe3), 0xc97f1968);
    Turn(m, base, H1, 67, 0x00438000, Hash(0xc97f1968, 0x17a22ef7, 0x27b3e99b, 0x2964dd14, 0xf57bc7b5), 0x097a511c);
    Turn(m, base, H1, 68, 0x00000000, Hash(0x097a511c, 0xc97f1968, 0xc5e88bbd, 0x27b3e99b, 0x2964dd14), 0x4e363db9);
    Turn(m, base, H1, 69, 0x078f0000, Hash(0x4e363db9, 0x097a511c, 0x325fc65a, 0xc5e88bbd, 0x27b3e99b), 0xbf3a7f95);
    Turn(m, base, H1, 70, 0x00ff0000, Hash(0xbf3a7f95, 0x4e363db9, 0x025e9447, 0x325fc65a, 0xc5e88bbd), 0xf6d1afee);
    Turn(m, base, H1, 71, 0x03269e00, Hash(0xf6d1afee, 0xbf3a7f95, 0x538d8f6e, 0x025e9447, 0x325fc65a), 0xc90888ca);
    Turn(m, base, H1, 72, 0x0f000000, Hash(0xc90888ca, 0xf6d1afee, 0x6fce9fe5, 0x538d8f6e, 0x025e9447), 0xc7652edb);
    Turn(m, base, H1, 73, 0x00f0f000, Hash(0xc7652edb, 0xc90888ca, 0xbdb46bfb, 0x6fce9fe5, 0x538d8f6e), 0x26f99990);
    Turn(m, base, H1, 74, 0x00333c00, Hash(0x26f99990, 0xc7652edb, 0xb2422232, 0xbdb46bfb, 0x6fce9fe5), 0xe22b36d1);
    Turn(m, base, H1, 75, 0x1eff8800, Hash(0xe22b36d1, 0x26f99990, 0xf1d94bb6, 0xb2422232, 0xbdb46bfb), 0x51e08021);
    Turn(m, base, H1, 76, 0x00000000, Hash(0x51e08021, 0xe22b36d1, 0x09be6664, 0xf1d94bb6, 0xb2422232), 0xd3010335);
    Turn(m, base, H1, 77, 0x0cb88800, Hash(0xd3010335, 0x51e08021, 0x788acdb4, 0x09be6664, 0xf1d94bb6), 0x49e92837);
    Turn(m, base, H1, 78, 0x3c00f000, Hash(0x49e92837, 0xd3010335, 0x54782008, 0x788acdb4, 0x09be6664), 0x4d3b0dac);
    Turn(m, base, H1, 79, 0x040a4a00, Hash(0x4d3b0dac, 0x49e92837, 0x74c040cd, 0x54782008, 0x788acdb4), 0x57aad805);
  }

  // ---- the message and the digest ----

  /** The four bytes of a word. */
  lemma Quarters(x: word) returns (p: word, q: word, r: word, s: word)
    ensures p < 0x100 && q < 0x100 && r < 0x100 && s < 0x100
    ensures WordBytes(x) == [p as int, q as int, r as int, s as int]
    ensures (p << 24) | (q << 16) | (r << 8) | s == x
  {
    p, q, r, s := x >> 24, (x >> 16) & 0xff, (x >> 8) & 0xff, x & 0xff;
  }

  lemma Rejoined(p: word, q: word, r: word, s: word)
    requires p < 0x100 && q < 0x100 && r < 0x100 && s < 0x100
    ensures FourBytes(p as int, q as int, r as int, s as int) == (p << 24) | (q << 16) | (r << 8) | s
  {
    hide AsWord;
    Cast(p);
    Cast(q);
    Cast(r);
    Cast(s);
  }

  /** The bytes of a word, put together again. */
  lemma WordBack(x: word)
    ensures
      var b := WordBytes(x);
      FourBytes(b[0], b[1], b[2], b[3]) == x
  {
    hide FourBytes, WordBytes;
    var p, q, r, s := Quarters(x);
    Rejoined(p, q, r, s);
  }

  function AsWord(b: byte): word {
    b as word
  }

  function FourBytes(a: byte, b: byte, c: byte, d: byte): word {
    (AsWord(a) << 24) | (AsWord(b) << 16) | (AsWord(c) << 8) | AsWord(d)
  }

  lemma Cast(y: word)
    requires y < 0x100
    ensures AsWord(y as int) == y
  {
  }

  lemma WordAtBytes(m: seq<byte>, at: nat)
    requires at + 4 <= |m|
    ensures WordAt(m, at) == FourBytes(m[at], m[at + 1], m[at + 2], m[at + 3])
  {
  }

  /** A word that the message spells at a position. */
  lemma Spelled(m: seq<byte>, at: nat, x: word)
    requires at + 4 <= |m| && m[at..at + 4] == WordBytes(x)
    ensures WordAt(m, at) == x
  {
    hide WordBytes, WordAt, FourBytes;
    WordBack(x);
    WordAtBytes(m, at);
    var b := WordBytes(x);
    assert m[at] == b[0] && m[at + 1] == b[1] && m[at + 2] == b[2] && m[at + 3] == b[3];
  }

  lemma AsciiSlice(s: string, i: nat, j: nat)
    requires i <= j <= |s|
    ensures AsciiBytes(s)[i..j] == AsciiBytes(s[i..j])
  {
  }

  /** The word that four characters of a text spell, when the text stands at the front of a message. */
  lemma TextWord(m: seq<byte>, from: nat, text: string, i: nat, chunk: string, x: word)
    requires i + 4 <= |text| && from + |text| <= |m| && m[from..from + |text|] == AsciiBytes(text)
    requires text[i..i + 4] == chunk && AsciiBytes(chunk) == WordBytes(x)
    ensures WordAt(m, from + i) == x
  {
    hide WordAt, WordBytes, AsciiBytes;
    AsciiSlice(text, i, i + 4);
    SliceOfSlice(m, from, from + |text|, i, i + 4);
    Spelled(m, from + i, x);
  }

  const KEY: string := "dGhlIHNhbXBsZSBub25jZQ=="
  const GUID_HEAD: string := "258EAFA5-E914-47"
  const GUID_TAIL: string := "DA-95CA-C5AB0DC85B11"

  lemma KeyChunks()
    ensures KEY[0..4] == "dGhl" && KEY[4..8] == "IHNh" && KEY[8..12] == "bXBs"
    ensures KEY[12..16] == "ZSBu" && KEY[16..20] == "b25j" && KEY[20..24] == "ZQ=="
  {
  }

  lemma GuidChunks()
    ensures GUID_HEAD[0..4] == "258E" && GUID_HEAD[4..8] == "AFA5"
    ensures GUID_HEAD[8..12] == "-E91" && GUID_HEAD[12..16] == "4-47"
    ensures GUID_TAIL[0..4] == "DA-9" && GUID_TAIL[4..8] == "5CA-" && GUID_TAIL[8..12] == "C5AB"
    ensures GUID_TAIL[12..16] == "0DC8" && GUID_TAIL[16..20] == "5B11"
  {
  }

  lemma KeyWords()
    ensures AsciiBytes("dGhl") == WordBytes(0x6447686c)
    ensures AsciiBytes("IHNh") == WordBytes(0x49484e68)
    ensures AsciiBytes("bXBs") == WordBytes(0x62584273)
    ensures AsciiBytes("ZSBu") == WordBytes(0x5a534275)
    ensures AsciiBytes("b25j") == WordBytes(0x6232356a)
    ensures AsciiBytes("ZQ==") == WordBytes(0x5a513d3d)
  {
  }

  lemma GuidWords()
    ensures AsciiBytes("258E") == WordBytes(0x32353845)
    ensures AsciiBytes("AFA5") == WordBytes(0x41464135)
    ensures AsciiBytes("-E91") == WordBytes(0x2d453931)
    ensures AsciiBytes("4-47") == WordBytes(0x342d3437)
    ensures AsciiBytes("DA-9") == WordBytes(0x44412d39)
    ensures AsciiBytes("5CA-") == WordBytes(0x3543412d)
    ensures AsciiBytes("C5AB") == WordBytes(0x43354142)
    ensures AsciiBytes("0DC8") == WordBytes(0x30444338)
    ensures AsciiBytes("5B11") == WordBytes(0x35423131)
  {
  }

  /** What is hashed: the key of the sample and the GUID. */
  function Sample(): seq<byte> {
    AsciiBytes(KEY) + AsciiBytes(GUID_HEAD) + AsciiBytes(GUID_TAIL)
  }

  lemma MessageWords(m: seq<byte>)
    requires |m| == 128 && m[..60] == Sample()
    requires m[60..64] == WordBytes(0x80000000)
    ensures FirstWords0(m, 0)
  {
    hide WordAt, WordBytes, AsciiBytes, W;
    KeyParts(m);
    KeyChunks();
    KeyWords();
    TextWord(m, 0, KEY, 0, "dGhl", 0x6447686c);
    TextWord(m, 0, KEY, 4, "IHNh", 0x49484e68);
    TextWord(m, 0, KEY, 8, "bXBs", 0x62584273);
    TextWord(m, 0, KEY, 12, "ZSBu", 0x5a534275);
    TextWord(m, 0, KEY, 16, "b25j", 0x6232356a);
    TextWord(m, 0, KEY, 20, "ZQ==", 0x5a513d3d);
    GuidChunks();
    GuidWords();
    TextWord(m, 24, GUID_HEAD, 0, "258E", 0x32353845);
    TextWord(m, 24, GUID_HEAD, 4, "AFA5", 0x41464135);
    TextWord(m, 24, GUID_HEAD, 8, "-E91", 0x2d453931);
    TextWord(m, 24, GUID_HEAD, 12, "4-47", 0x342d3437);
    TextWord(m, 40, GUID_TAIL, 0, "DA-9", 0x44412d39);
    TextWord(m, 40, GUID_TAIL, 4, "5CA-", 0x3543412d);
    TextWord(m, 40, GUID_TAIL, 8, "C5AB", 0x43354142);
    TextWord(m, 40, GUID_TAIL, 12, "0DC8", 0x30444338);
    TextWord(m, 40, GUID_TAIL, 16, "5B11", 0x35423131);
    Spelled(m, 60, 0x80000000);
    WStep(m, 0, 0);
    WStep(m, 0, 1);
    WStep(m, 0, 2);
    WStep(m, 0, 3);
    WStep(m, 0, 4);
    WStep(m, 0, 5);
    WStep(m, 0, 6);
    WStep(m, 0, 7);
    WStep(m, 0, 8);
    WStep(m, 0, 9);
    WStep(m, 0, 10);
    WStep(m, 0, 11);
    WStep(m, 0, 12);
    WStep(m, 0, 13);
    WStep(m, 0, 14);
    WStep(m, 0, 15);
  }

  lemma KeyParts(m: seq<byte>)
    requires |m| == 128 && m[..60] == Sample()
    ensures |KEY| == 24 && m[0..24] == AsciiBytes(KEY)
    ensures |GUID_HEAD| == 16 && m[24..40] == AsciiBytes(GUID_HEAD)
    ensures |GUID_TAIL| == 20 && m[40..60] == AsciiBytes(GUID_TAIL)
  {
    var k, g, t := AsciiBytes(KEY), AsciiBytes(GUID_HEAD), AsciiBytes(GUID_TAIL);
    assert |k| == 24 && |g| == 16 && |t| == 20;
    hide AsciiBytes;
    assert m[0..24] == m[..60][0..24] == k;
    assert m[24..40] == m[..60][24..40] == g;
    assert m[40..60] == m[..60][40..60] == t;
  }

  /** The padding behind the 60 bytes: one bit, zeros, and the length of 480 bits. */
  lemma SamplePadded()
    ensures
      var m := Padded(Sample());
      && |m| == 128 && m[..60] == Sample() && m[60..64] == [0x80, 0, 0, 0]
      && (forall i :: 64 <= i < 124 ==> m[i] == 0) && m[124..128] == [0, 0, 1, 0xe0]
  {
    SampleSize();
    LengthField();
    hide Sample, ToBe;
    var s, m := Sample(), Padded(Sample());
    assert m == s + [0x80] + Zeros(59) + ToBe(480, 8);
    assert m[120..128] == ToBe(480, 8);
    assert m[124..128] == m[120..128][4..8];
  }

  lemma SampleSize()
    ensures |Sample()| == 60
  {
    KeyChunks();
    assert |KEY| == 24 && |GUID_HEAD| == 16 && |GUID_TAIL| == 20;
  }

  lemma LengthField()
    ensures ToBe(480, 8) == [0, 0, 0, 0, 0, 0, 1, 0xe0]
  {
    assert ToBe(0, 2) == [0, 0];
    assert ToBe(0, 4) == [0, 0, 0, 0];
    assert ToBe(0, 6) == [0, 0, 0, 0, 0, 0];
    assert ToBe(1, 7) == [0, 0, 0, 0, 0, 0, 1];
  }

  lemma PaddingWords(m: seq<byte>)
    requires |m| == 128 && (forall i :: 64 <= i < 124 ==> m[i] == 0) && m[124..128] == [0, 0, 1, 0xe0]
    ensures SecondWords0(m, 64)
  {
    hide WordAt, W;
    assert WordBytes(0) == [0, 0, 0, 0] && WordBytes(0x1e0) == [0, 0, 1, 0xe0];
    hide WordBytes;
    forall t: nat | t < 15
      ensures W(m, 64, t) == 0
    {
      assert m[64 + t * 4..64 + t * 4 + 4] == [0, 0, 0, 0];
      Spelled(m, 64 + t * 4, 0);
      WStep(m, 64, t);
    }
    Spelled(m, 124, 0x1e0);
    WStep(m, 64, 15);
  }

  lemma FirstBlock(m: seq<byte>)
    requires |m| == 128 && FirstWords0(m, 0)
    ensures Rounds(m, 0, H0, 80) == Hash(0xf48a5426, 0x835995e1, 0x25c11efb, 0x4a45c402, 0x9a73c2f2)
  {
    hide Rounds, FirstWords0, FirstWords16, FirstWords32, FirstWords48, FirstWords64;
    RoundsStep(m, 0, H0, 0);
    FirstSchedule16(m, 0);
    FirstSchedule32(m, 0);
    FirstSchedule48(m, 0);
    FirstSchedule64(m, 0);
    FirstRounds0(m, 0);
    FirstRounds16(m, 0);
    FirstRounds32(m, 0);
    FirstRounds48(m, 0);
    FirstRounds64(m, 0);
  }

  lemma SecondBlock(m: seq<byte>)
    requires |m| == 128 && SecondWords0(m, 64)
    ensures Rounds(m, 64, H1, 80) == Hash(0x57aad805, 0x4d3b0dac, 0xd27a4a0d, 0x74c040cd, 0x54782008)
  {
    hide Rounds, SecondWords0, SecondWords16, SecondWords32, SecondWords48, SecondWords64;
    RoundsStep(m, 64, H1, 0);
    SecondSchedule16(m, 64);
    SecondSchedule32(m, 64);
    SecondSchedule48(m, 64);
    SecondSchedule64(m, 64);
    SecondRounds0(m, 64);
    SecondRounds16(m, 64);
    SecondRounds32(m, 64);
    SecondRounds48(m, 64);
    SecondRounds64(m, 64);
  }

  lemma BlocksStep(m: seq<byte>)
    requires |m| == 128
    ensures HashBlocks(m, 2) == AddHash(AddHash(H0, Rounds(m, 0, H0, 80)),
                                        Rounds(m, 64, AddHash(H0, Rounds(m, 0, H0, 80)), 80))
  {
    hide Rounds, AddHash;
    assert HashBlocks(m, 1) == AddHash(HashBlocks(m, 0), Rounds(m, 0, HashBlocks(m, 0), 80));
  }

  lemma BlockSums()
    ensures AddHash(H0, Hash(0xf48a5426, 0x835995e1, 0x25c11efb, 0x4a45c402, 0x9a73c2f2)) == H1
    ensures AddHash(H1, Hash(0x57aad805, 0x4d3b0dac, 0xd27a4a0d, 0x74c040cd, 0x54782008)) ==
      Hash(0xb37a4f2c, 0xc0624f16, 0x90f64606, 0xcf385945, 0xb2bec4ea)
  {
  }

  lemma BothBlocks(m: seq<byte>)
    requires |m| == 128 && FirstWords0(m, 0) && SecondWords0(m, 64)
    ensures HashBlocks(m, 2) == Hash(0xb37a4f2c, 0xc0624f16, 0x90f64606, 0xcf385945, 0xb2bec4ea)
  {
    hide Rounds, AddHash, HashBlocks, FirstWords0, SecondWords0;
    FirstBlock(m);
    SecondBlock(m);
    BlocksStep(m);
    BlockSums();
  }

  /** SHA-1 of the sample key followed by the GUID. */
  lemma SampleDigest()
    ensures Digest(Sample()) ==
      [0xb3, 0x7a, 0x4f, 0x2c, 0xc0, 0x62, 0x4f, 0x16, 0x90, 0xf6,
       0x46, 0x06, 0xcf, 0x38, 0x59, 0x45, 0xb2, 0xbe, 0xc4, 0xea]
  {
    hide Sample, Padded, HashBlocks, HashBytes, WordBytes, FirstWords0, SecondWords0;
    SamplePadded();
    TopBit();
    var m := Padded(Sample());
    MessageWords(m);
    PaddingWords(m);
    BothBlocks(m);
    DigestBytes();
  }

  lemma TopBit()
    ensures WordBytes(0x80000000) == [0x80, 0, 0, 0]
  {
  }

  lemma DigestBytes()
    ensures HashBytes(Hash(0xb37a4f2c, 0xc0624f16, 0x90f64606, 0xcf385945, 0xb2bec4ea)) ==
      [0xb3, 0x7a, 0x4f, 0x2c, 0xc0, 0x62, 0x4f, 0x16, 0x90, 0xf6,
       0x46, 0x06, 0xcf, 0x38, 0x59, 0x45, 0xb2, 0xbe, 0xc4, 0xea]
  {
  }

  // ---- the round constants ----

  /** Each round constant is the integer part of 2^30 times the square root of 2, 3, 5 or 10. */
  lemma ConstantsAreRoots(t: nat)
    requires t < 80
    ensures
      var n := if t < 20 then 2 else if t < 40 then 3 else if t < 60 then 5 else 10;
      var k := K(t) as int;
      k * k <= n * 0x1000_0000_0000_0000 < (k + 1) * (k + 1)
  {
  }
}
