/** The memory of a ring block written field by field, in the declared order of the kernel's structures, and what the
    chain walk reads from it. */
module RingLayout {
  import opened Bytes
  import opened RingBlock

  type u16 = n: nat | n < 0x1_0000
  type u32 = n: nat | n < 0x1_0000_0000
  type u64 = n: nat | n < 0x1_0000_0000_0000_0000

  /** The k bytes of n, least significant first. */
  function Le(n: nat, k: nat): (s: seq<byte>)
    ensures |s| == k
  {
    if k == 0 then [] else [n % 256] + Le(n / 256, k - 1)
  }

  /** TpacketBlockDesc with its TpacketBdHeader and the two TpacketBdTs. */
  datatype Descriptor = Descriptor(
    version: u32, offsetToPriv: u32,
    blockStatus: u32, numPkts: u32, offsetToFirstPkt: u32, blkLen: u32, seqNum: u64,
    firstSec: u32, firstNsec: u32, lastSec: u32, lastNsec: u32)

  function EncodeDescriptor(d: Descriptor): (s: seq<byte>)
    ensures |s| == 48
  {
    Le(d.version, 4) + Le(d.offsetToPriv, 4)
    + Le(d.blockStatus, 4) + Le(d.numPkts, 4) + Le(d.offsetToFirstPkt, 4) + Le(d.blkLen, 4) + Le(d.seqNum, 8)
    + Le(d.firstSec, 4) + Le(d.firstNsec, 4) + Le(d.lastSec, 4) + Le(d.lastNsec, 4)
  }

  /** Tpacket3Hdr. */
  datatype Header = Header(
    nextOffset: u32, sec: u32, nsec: u32, snaplen: u32, len: u32, status: u32,
    mac: u16, net: u16, vlanTci: u16, vlanTpid: u16, padding: u64)

  function EncodeHeader(h: Header): (s: seq<byte>)
    ensures |s| == 40
  {
    Le(h.nextOffset, 4) + Le(h.sec, 4) + Le(h.nsec, 4) + Le(h.snaplen, 4) + Le(h.len, 4) + Le(h.status, 4)
    + Le(h.mac, 2) + Le(h.net, 2) + Le(h.vlanTci, 2) + Le(h.vlanTpid, 2) + Le(h.padding, 8)
  }

  lemma {:induction false} FromLeBack(n: nat, k: nat)
    requires n < Pow256(k)
    ensures FromLe(Le(n, k)) == n
  {
    if k > 0 {
      FromLeBack(n / 256, k - 1);
      assert Le(n, k)[1..] == Le(n / 256, k - 1);
    }
  }

  lemma FromLe32(n: u32)
    ensures FromLe(Le(n, 4)) == n
  {
    assert Pow256(2) == 0x1_0000;
    assert Pow256(4) == 0x1_0000_0000;
    FromLeBack(n, 4);
  }

  lemma FromLe16(n: u16)
    ensures FromLe(Le(n, 2)) == n
  {
    assert Pow256(2) == 0x1_0000;
    FromLeBack(n, 2);
  }

  // ---- reading the fields ----

  lemma HeaderSlices(h: Header)
    ensures
      var e := EncodeHeader(h);
      e[0..4] == Le(h.nextOffset, 4) && e[12..16] == Le(h.snaplen, 4) && e[24..26] == Le(h.mac, 2)
  {
    hide Le;
  }

  /** What the walk takes from a header, wherever it stands and whatever its fields are: the frame starts tp_mac bytes
      behind the header's start, has tp_snaplen bytes, and counts if it is not empty and ends inside the block. */
  lemma HeaderIsRead(b: seq<byte>, off: nat, h: Header)
    requires |b| == 0x40_0000 && off + 40 <= 0x40_0000 && b[off..off + 40] == EncodeHeader(h)
    ensures IsBlock(b) && HeaderFits(off)
    ensures NextOffset(b, off) == h.nextOffset
    ensures FrameAt(b, off) ==
      if h.snaplen > 0 && off + h.mac + h.snaplen <= 0x40_0000
      then [b[off + h.mac..off + h.mac + h.snaplen]] else []
  {
    hide EncodeHeader, Le, FromLe;
    HeaderSlices(h);
    SliceOfSlice(b, off, off + 40, 0, 4);
    SliceOfSlice(b, off, off + 40, 12, 16);
    SliceOfSlice(b, off, off + 40, 24, 26);
    FromLe32(h.nextOffset);
    FromLe32(h.snaplen);
    FromLe16(h.mac);
  }

  lemma DescriptorSlices(d: Descriptor)
    ensures
      var e := EncodeDescriptor(d);
      && e[8..12] == Le(d.blockStatus, 4) && e[12..16] == Le(d.numPkts, 4) && e[16..20] == Le(d.offsetToFirstPkt, 4)
      && EncodeDescriptor(d.(blockStatus := 0)) == e[..8] + [0, 0, 0, 0] + e[12..]
  {
    FourZeros();
    hide Le;
    var front := Le(d.version, 4) + Le(d.offsetToPriv, 4);
    var back := Le(d.blkLen, 4) + Le(d.seqNum, 8) + Le(d.firstSec, 4) + Le(d.firstNsec, 4) + Le(d.lastSec, 4)
      + Le(d.lastNsec, 4);
    var status, num, first := Le(d.blockStatus, 4), Le(d.numPkts, 4), Le(d.offsetToFirstPkt, 4);
    assert EncodeDescriptor(d) == front + status + num + first + back;
    assert EncodeDescriptor(d.(blockStatus := 0)) == front + Le(0, 4) + num + first + back;
    hide EncodeDescriptor;
    FiveParts(front, status, num, first, back, [0, 0, 0, 0]);
  }

  lemma FourZeros()
    ensures Le(0, 4) == [0, 0, 0, 0]
  {
    assert Le(0, 2) == [0, 0];
  }

  lemma FiveParts(front: seq<byte>, x: seq<byte>, y: seq<byte>, z: seq<byte>, back: seq<byte>, x': seq<byte>)
    requires |front| == 8 && |x| == |y| == |z| == 4
    ensures
      var e := front + x + y + z + back;
      && e[8..12] == x && e[12..16] == y && e[16..20] == z
      && front + x' + y + z + back == e[..8] + x' + e[12..]
  {
    var e := front + x + y + z + back;
    assert e == front + x + (y + z + back);
    assert e[12..] == y + z + back;
    assert e[8..12] == x && e[12..16] == y && e[16..20] == z;
  }

  /** What the consumer takes from a block descriptor, and what giving the block back does to it: the status becomes 0,
      every other field and byte stays. */
  lemma DescriptorIsRead(b: seq<byte>, d: Descriptor)
    requires |b| == 0x40_0000 && b[..48] == EncodeDescriptor(d)
    ensures IsBlock(b)
    ensures User(b) <==> d.blockStatus % 2 == 1
    ensures NumPkts(b) == d.numPkts && FirstPkt(b) == d.offsetToFirstPkt
    ensures Freed(b) == EncodeDescriptor(d.(blockStatus := 0)) + b[48..]
  {
    hide EncodeDescriptor, Le, FromLe;
    DescriptorSlices(d);
    assert b[0..48] == b[..48];
    SliceOfSlice(b, 0, 48, 8, 12);
    SliceOfSlice(b, 0, 48, 12, 16);
    SliceOfSlice(b, 0, 48, 16, 20);
    FromLe32(d.blockStatus);
    FromLe32(d.numPkts);
    FromLe32(d.offsetToFirstPkt);
    assert b[..8] == b[..48][..8] && b[12..] == b[..48][12..] + b[48..];
  }

  // ---- whole blocks ----

  /** A packet in a block: its header, what stands between header and frame, the frame, what stands behind it. */
  datatype Packet = Packet(header: Header, gap: seq<byte>, data: seq<byte>, pad: seq<byte>)

  function EncodePacket(p: Packet): seq<byte> {
    EncodeHeader(p.header) + p.gap + p.data + p.pad
  }

  function EncodePackets(ps: seq<Packet>): seq<byte> {
    if |ps| == 0 then [] else EncodePacket(ps[0]) + EncodePackets(ps[1..])
  }

  /** The header says where the frame is and, unless the packet is the last, where the next packet is. All other fields
      are free, tp_net and tp_len among them. */
  predicate Linked(p: Packet, last: bool) {
    && p.header.mac == 40 + |p.gap| && p.header.snaplen == |p.data|
    && (!last ==> p.header.nextOffset == |EncodePacket(p)|)
  }

  predicate AllLinked(ps: seq<Packet>) {
    forall i :: 0 <= i < |ps| ==> Linked(ps[i], i == |ps| - 1)
  }

  function EncodeBlock(d: Descriptor, lead: seq<byte>, ps: seq<Packet>, rest: seq<byte>): seq<byte> {
    EncodeDescriptor(d) + lead + EncodePackets(ps) + rest
  }

  /** The frames that are not empty. */
  function NonEmptyFrames(ps: seq<Packet>): seq<seq<byte>> {
    if |ps| == 0 then [] else (if ps[0].data == [] then [] else [ps[0].data]) + NonEmptyFrames(ps[1..])
  }

  lemma FrameOfPacket(b: seq<byte>, off: nat, p: Packet, last: bool)
    requires |b| == 0x40_0000 && Linked(p, last)
    requires off + |EncodePacket(p)| <= |b| && b[off..off + |EncodePacket(p)|] == EncodePacket(p)
    ensures IsBlock(b) && HeaderFits(off)
    ensures FrameAt(b, off) == if p.data == [] then [] else [p.data]
    ensures NextOffset(b, off) == p.header.nextOffset
  {
    hide EncodeHeader, FrameAt, NextOffset;
    var e, mac := EncodePacket(p), p.header.mac;
    assert e[0..40] == EncodeHeader(p.header) && e[mac..mac + |p.data|] == p.data;
    SliceOfSlice(b, off, off + |e|, 0, 40);
    SliceOfSlice(b, off, off + |e|, mac, mac + |p.data|);
    HeaderIsRead(b, off, p.header);
  }

  lemma {:induction false} FramesOfPackets(b: seq<byte>, off: nat, ps: seq<Packet>)
    requires |b| == 0x40_0000 && AllLinked(ps)
    requires off + |EncodePackets(ps)| <= |b| && b[off..off + |EncodePackets(ps)|] == EncodePackets(ps)
    ensures IsBlock(b) && Frames(b, off, |ps|) == NonEmptyFrames(ps)
    decreases |ps|
  {
    hide EncodePacket, FrameAt, NextOffset;
    if |ps| > 0 {
      var e, tail := EncodePacket(ps[0]), EncodePackets(ps[1..]);
      var all := EncodePackets(ps);
      assert all[0..|e|] == e && all[|e|..|all|] == tail;
      SliceOfSlice(b, off, off + |all|, 0, |e|);
      SliceOfSlice(b, off, off + |all|, |e|, |all|);
      FrameOfPacket(b, off, ps[0], |ps| == 1);
      PacketNotEmpty(ps[0]);
      forall i | 0 <= i < |ps| - 1
        ensures Linked(ps[1..][i], i == |ps[1..]| - 1)
      {
        assert Linked(ps[i + 1], i + 1 == |ps| - 1);
      }
      FramesOfPackets(b, off + |e|, ps[1..]);
      if |ps| == 1 {
        assert NonEmptyFrames(ps[1..]) == [];
      } else {
        assert NextOffset(b, off) == |e|;
      }
    }
  }

  lemma PacketNotEmpty(p: Packet)
    ensures |EncodePacket(p)| > 0
  {
  }

  /** A block written field by field, for all values of all fields: a walk delivers exactly the frames that are not
      empty, in order, and the consumer takes the block exactly when the lowest status bit is set. */
  lemma EncodedBlockIsWalked(d: Descriptor, lead: seq<byte>, ps: seq<Packet>, rest: seq<byte>)
    requires |EncodeBlock(d, lead, ps, rest)| == 0x40_0000 && AllLinked(ps)
    requires d.numPkts == |ps| && d.offsetToFirstPkt == 48 + |lead|
    ensures
      var b := EncodeBlock(d, lead, ps, rest);
      && IsBlock(b) && (User(b) <==> d.blockStatus % 2 == 1)
      && BlockFrames(b) == NonEmptyFrames(ps)
      && Freed(b) == EncodeBlock(d.(blockStatus := 0), lead, ps, rest)
  {
    hide EncodeDescriptor, EncodePackets, Frames, Freed, User, NumPkts, FirstPkt;
    var b, first := EncodeBlock(d, lead, ps, rest), 48 + |lead|;
    var packets := EncodePackets(ps);
    assert b[..48] == EncodeDescriptor(d);
    assert b[first..first + |packets|] == packets;
    DescriptorIsRead(b, d);
    FramesOfPackets(b, first, ps);
    assert b[48..] == lead + packets + rest;
    assert EncodeDescriptor(d.(blockStatus := 0)) + b[48..] == EncodeBlock(d.(blockStatus := 0), lead, ps, rest);
  }

  // ---- every header is some encoding ----

  lemma {:induction false} LeOfFromLe(s: seq<byte>)
    ensures Le(FromLe(s), |s|) == s && FromLe(s) < Pow256(|s|)
  {
    if |s| > 0 {
      LeOfFromLe(s[1..]);
      LowByte(s[0], FromLe(s[1..]));
      assert s == [s[0]] + s[1..];
    }
  }

  lemma LowByte(b: byte, n: nat)
    ensures (b + 256 * n) % 256 == b && (b + 256 * n) / 256 == n
  {
  }

  lemma Read32(s: seq<byte>, i: nat) returns (n: u32)
    requires i + 4 <= |s|
    ensures Le(n, 4) == s[i..i + 4]
  {
    LeOfFromLe(s[i..i + 4]);
    assert Pow256(2) == 0x1_0000;
    assert Pow256(4) == 0x1_0000_0000;
    n := FromLe(s[i..i + 4]);
  }

  lemma Read16(s: seq<byte>, i: nat) returns (n: u16)
    requires i + 2 <= |s|
    ensures Le(n, 2) == s[i..i + 2]
  {
    LeOfFromLe(s[i..i + 2]);
    assert Pow256(2) == 0x1_0000;
    n := FromLe(s[i..i + 2]);
  }

  lemma Read64(s: seq<byte>, i: nat) returns (n: u64)
    requires i + 8 <= |s|
    ensures Le(n, 8) == s[i..i + 8]
  {
    LeOfFromLe(s[i..i + 8]);
    Pow256Of8();
    n := FromLe(s[i..i + 8]);
  }

  /** Any 40 bytes are the encoding of a header, so HeaderIsRead speaks of every place in every block. */
  lemma EveryHeaderEncodes(s: seq<byte>) returns (h: Header)
    requires |s| == 40
    ensures EncodeHeader(h) == s
  {
    hide Le;
    var next := Read32(s, 0);
    var sec := Read32(s, 4);
    var nsec := Read32(s, 8);
    var snaplen := Read32(s, 12);
    var len := Read32(s, 16);
    var status := Read32(s, 20);
    var mac := Read16(s, 24);
    var net := Read16(s, 26);
    var tci := Read16(s, 28);
    var tpid := Read16(s, 30);
    var padding := Read64(s, 32);
    h := Header(next, sec, nsec, snaplen, len, status, mac, net, tci, tpid, padding);
    assert s[..24] == s[0..4] + s[4..8] + s[8..12] + s[12..16] + s[16..20] + s[20..24];
    assert s == s[..24] + s[24..26] + s[26..28] + s[28..30] + s[30..32] + s[32..40];
  }
}
