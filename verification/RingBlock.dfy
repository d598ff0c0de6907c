/** The memory layout of a TPACKET_V3 block and the frames its packet chain holds. */
module RingBlock {
  import opened Bytes

  const BLOCK_SIZE: nat := 0x40_0000
  const BLOCK_NR: nat := 8

  /** size_of::<Tpacket3Hdr>(), as declared in the crate. */
  const PACKET_HEADER_SIZE: nat := 40

  /** Field positions in a block descriptor. */
  const BLOCK_STATUS: nat := 8
  const NUM_PKTS: nat := 12
  const OFFSET_TO_FIRST_PKT: nat := 16

  /** Field positions in a packet header. */
  const TP_NEXT_OFFSET: nat := 0
  const TP_SNAPLEN: nat := 12
  const TP_MAC: nat := 24

  /** A little-endian u16 in memory. */
  function Le16(b: seq<byte>, at: nat): nat
    requires at + 2 <= |b|
  {
    FromLe(b[at..at + 2])
  }

  /** A little-endian u32 in memory. */
  function Le32(b: seq<byte>, at: nat): nat
    requires at + 4 <= |b|
  {
    FromLe(b[at..at + 4])
  }

  predicate IsBlock(b: seq<byte>) {
    |b| == BLOCK_SIZE
  }

  /** The status has its TP_STATUS_USER bit set: the kernel has retired the block. */
  predicate User(b: seq<byte>)
    requires IsBlock(b)
  {
    Le32(b, BLOCK_STATUS) % 2 == 1
  }

  function NumPkts(b: seq<byte>): nat
    requires IsBlock(b)
  {
    Le32(b, NUM_PKTS)
  }

  function FirstPkt(b: seq<byte>): nat
    requires IsBlock(b)
  {
    Le32(b, OFFSET_TO_FIRST_PKT)
  }

  /** The block with TP_STATUS_KERNEL written over its status word. */
  function Freed(b: seq<byte>): (f: seq<byte>)
    requires IsBlock(b)
    ensures IsBlock(f) && !User(f)
  {
    b[..BLOCK_STATUS] + [0, 0, 0, 0] + b[BLOCK_STATUS + 4..]
  }

  /** The chain has a header at off that lies inside the block. */
  predicate HeaderFits(off: nat) {
    off + PACKET_HEADER_SIZE <= BLOCK_SIZE
  }

  /** Where the frame of the packet at off lies, as a half-open range inside the block. */
  datatype Slice = Slice(start: nat, end: nat)

  function FrameSlice(b: seq<byte>, off: nat): Slice
    requires IsBlock(b) && HeaderFits(off)
  {
    var start := off + Le16(b, off + TP_MAC);
    Slice(start, start + Le32(b, off + TP_SNAPLEN))
  }

  /** The frames the packet at off contributes: one, or none when it is empty or runs past the block. */
  function FrameAt(b: seq<byte>, off: nat): (frames: seq<seq<byte>>)
    requires IsBlock(b) && HeaderFits(off)
  {
    var s := FrameSlice(b, off);
    if s.end <= BLOCK_SIZE && s.start < s.end then [b[s.start..s.end]] else []
  }

  function NextOffset(b: seq<byte>, off: nat): nat
    requires IsBlock(b) && HeaderFits(off)
  {
    Le32(b, off + TP_NEXT_OFFSET)
  }

  /** The frames of at most left packets from off on. */
  function Frames(b: seq<byte>, off: nat, left: nat): seq<seq<byte>>
    requires IsBlock(b)
    decreases left
  {
    if left == 0 || !HeaderFits(off) then []
    else if NextOffset(b, off) == 0 then FrameAt(b, off)
    else FrameAt(b, off) + Frames(b, off + NextOffset(b, off), left - 1)
  }

  /** What one block delivers. */
  function BlockFrames(b: seq<byte>): seq<seq<byte>>
    requires IsBlock(b)
  {
    Frames(b, FirstPkt(b), NumPkts(b))
  }

  lemma {:induction false} AtMostNumPkts(b: seq<byte>, off: nat, left: nat)
    requires IsBlock(b)
    ensures |Frames(b, off, left)| <= left
    ensures forall f :: f in Frames(b, off, left) ==> 0 < |f| <= BLOCK_SIZE
    decreases left
  {
    hide FrameAt, NextOffset;
    if left > 0 && HeaderFits(off) {
      AtMostOneFrame(b, off);
      if NextOffset(b, off) > 0 {
        AtMostNumPkts(b, off + NextOffset(b, off), left - 1);
      }
    }
  }

  lemma AtMostOneFrame(b: seq<byte>, off: nat)
    requires IsBlock(b) && HeaderFits(off)
    ensures |FrameAt(b, off)| <= 1
    ensures forall f :: f in FrameAt(b, off) ==> 0 < |f| <= BLOCK_SIZE
  {
  }

  // ---- well-formed chains ----

  /** A packet as the kernel lays it out: where its header is, how far behind it the frame starts, the frame. */
  datatype Packet = Packet(at: nat, mac: nat, data: seq<byte>)

  /** The header and the frame of p are in the block. */
  predicate PacketLaidOut(b: seq<byte>, p: Packet)
    requires IsBlock(b)
  {
    && HeaderFits(p.at)
    && Le16(b, p.at + TP_MAC) == p.mac
    && Le32(b, p.at + TP_SNAPLEN) == |p.data|
    && p.at + p.mac + |p.data| <= BLOCK_SIZE
    && b[p.at + p.mac..p.at + p.mac + |p.data|] == p.data
  }

  /** The block is a chain of the packets ps: each header's next offset leads to the following header. */
  ghost predicate ChainLaidOut(b: seq<byte>, ps: seq<Packet>)
    requires IsBlock(b)
  {
    && (forall i :: 0 <= i < |ps| ==> PacketLaidOut(b, ps[i]))
    && (forall i :: 0 <= i < |ps| - 1 ==> ps[i].at < ps[i + 1].at && NextOffset(b, ps[i].at) == ps[i + 1].at - ps[i].at)
    && NumPkts(b) == |ps|
    && (|ps| > 0 ==> FirstPkt(b) == ps[0].at)
  }

  /** The non-empty frames of ps from the k-th packet on, in order. */
  function NonEmptyData(ps: seq<Packet>, k: nat): seq<seq<byte>>
    requires k <= |ps|
    decreases |ps| - k
  {
    if k == |ps| then []
    else (if |ps[k].data| > 0 then [ps[k].data] else []) + NonEmptyData(ps, k + 1)
  }

  lemma FrameOfPacket(b: seq<byte>, p: Packet)
    requires IsBlock(b) && PacketLaidOut(b, p)
    ensures HeaderFits(p.at) && FrameAt(b, p.at) == if |p.data| > 0 then [p.data] else []
  {
  }

  lemma {:induction false} ChainFramesFrom(b: seq<byte>, ps: seq<Packet>, k: nat)
    requires IsBlock(b) && ChainLaidOut(b, ps) && k < |ps|
    ensures Frames(b, ps[k].at, |ps| - k) == NonEmptyData(ps, k)
    decreases |ps| - k
  {
    hide PacketLaidOut, FrameAt, NextOffset, NumPkts, FirstPkt;
    FrameOfPacket(b, ps[k]);
    if k + 1 < |ps| {
      ChainFramesFrom(b, ps, k + 1);
    } else {
      assert NonEmptyData(ps, k + 1) == [];
    }
  }

  /** A well-formed chain delivers exactly its non-empty frames, in order. */
  lemma ChainFrames(b: seq<byte>, ps: seq<Packet>)
    requires IsBlock(b) && ChainLaidOut(b, ps)
    ensures BlockFrames(b) == NonEmptyData(ps, 0)
  {
    if |ps| > 0 {
      ChainFramesFrom(b, ps, 0);
    }
  }

  // ---- the ring ----

  predicate IsRing(mem: seq<byte>) {
    |mem| == BLOCK_SIZE * BLOCK_NR
  }

  function BlockOf(mem: seq<byte>, i: nat): (b: seq<byte>)
    requires IsRing(mem) && i < BLOCK_NR
    ensures IsBlock(b)
  {
    mem[i * BLOCK_SIZE..(i + 1) * BLOCK_SIZE]
  }

  function Blocks(mem: seq<byte>): (bs: seq<seq<byte>>)
    requires IsRing(mem)
    ensures |bs| == BLOCK_NR && forall i :: 0 <= i < BLOCK_NR ==> IsBlock(bs[i])
  {
    seq(BLOCK_NR, i requires 0 <= i < BLOCK_NR => BlockOf(mem, i))
  }
}
