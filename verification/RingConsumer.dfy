/** The consumer side of the ring: RingSocket::recv_block. */
module RingConsumer {
  import opened Bytes
  import opened RingBlock

  /** How one call of poll ends: an error, or a return that finds memory in the ring. */
  datatype Poll = PollError | Wake(memory: seq<byte>)

  /** How recv_block ends; Waiting when the given polls run out before the block is retired. */
  datatype Received = Delivered(frames: seq<seq<byte>>) | PollFailed | Waiting

  /** The ring contents on which the wait loop stops. */
  datatype Awaited = Ready(memory: seq<byte>) | Failed(memory: seq<byte>) | Blocked(memory: seq<byte>)

  ghost predicate AllRings(polls: seq<Poll>) {
    forall i :: 0 <= i < |polls| && polls[i].Wake? ==> IsRing(polls[i].memory)
  }

  /** The wait loop: poll until block current has its USER bit set. */
  ghost function Await(mem: seq<byte>, current: nat, polls: seq<Poll>): (a: Awaited)
    requires IsRing(mem) && current < BLOCK_NR && AllRings(polls)
    ensures IsRing(a.memory)
    decreases |polls|
  {
    if User(BlockOf(mem, current)) then Ready(mem)
    else if |polls| == 0 then Blocked(mem)
    else if polls[0].PollError? then Failed(mem)
    else Await(polls[0].memory, current, polls[1..])
  }

  class RingSocket {
    const ring: array<byte>
    var currentBlock: nat

    ghost predicate Valid()
      reads this
    {
      ring.Length == BLOCK_SIZE * BLOCK_NR && currentBlock < BLOCK_NR
    }

    ghost function Current(): seq<byte>
      requires Valid()
      reads this, ring
    {
      BlockOf(ring[..], currentBlock)
    }

    constructor (ring: array<byte>)
      requires ring.Length == BLOCK_SIZE * BLOCK_NR
      ensures Valid() && this.ring == ring && currentBlock == 0
    {
      this.ring := ring;
      currentBlock := 0;
    }

    /** A u32 read at a position in the ring. */
    method ReadU32(at: nat) returns (n: nat)
      requires at + 4 <= ring.Length
      ensures n == Le32(ring[..], at)
    {
      n := FromLe(ring[at..at + 4]);
      assert ring[at..at + 4] == ring[..][at..at + 4];
    }

    method ReadU16(at: nat) returns (n: nat)
      requires at + 2 <= ring.Length
      ensures n == Le16(ring[..], at)
    {
      n := FromLe(ring[at..at + 2]);
      assert ring[at..at + 2] == ring[..][at..at + 2];
    }

    /** A slice that stays inside the current block and is not empty. */
    ghost predicate InCurrentBlock(s: Slice)
      reads this
    {
      currentBlock * BLOCK_SIZE <= s.start < s.end <= (currentBlock + 1) * BLOCK_SIZE
    }

    /** One turn of the chain loop at a header that lies in the block: the slice for the callback, if any, and the
        next offset. */
    method ReadPacket(pktOffset: nat) returns (slice: Option<Slice>, next: nat)
      requires Valid() && HeaderFits(pktOffset)
      ensures next == NextOffset(Current(), pktOffset)
      ensures slice.None? ==> FrameAt(Current(), pktOffset) == []
      ensures slice.Some? ==> InCurrentBlock(slice.value)
      ensures slice.Some? ==> FrameAt(Current(), pktOffset) == [ring[..][slice.value.start..slice.value.end]]
    {
      hide BlockOf, FrameAt, NextOffset, Le32, Le16;
      var base := currentBlock * BLOCK_SIZE;
      PacketRead(ring[..], currentBlock, pktOffset);
      var snaplen := ReadU32(base + pktOffset + TP_SNAPLEN);
      var mac := ReadU16(base + pktOffset + TP_MAC);
      slice := None;
      if pktOffset + mac + snaplen <= BLOCK_SIZE && snaplen > 0 {
        slice := Some(Slice(base + pktOffset + mac, base + pktOffset + mac + snaplen));
      }
      next := ReadU32(base + pktOffset + TP_NEXT_OFFSET);
    }

    /** The packet-chain loop. Whatever the block holds, every slice handed to the callback is a non-empty range
        inside the current block, so inside the ring, and there are at most num_pkts of them. */
    method WalkBlock() returns (slices: seq<Slice>, frames: seq<seq<byte>>)
      requires Valid()
      ensures frames == BlockFrames(Current())
      ensures |slices| == |frames| <= NumPkts(Current())
      ensures forall i :: 0 <= i < |slices| ==>
        InCurrentBlock(slices[i]) && frames[i] == ring[..][slices[i].start..slices[i].end]
    {
      hide BlockOf, FrameAt, NextOffset, Le32, Le16, FrameSlice, Frames, NumPkts, FirstPkt;
      var base := currentBlock * BLOCK_SIZE;
      ghost var block := Current();
      DescriptorRead(ring[..], currentBlock);
      var numPkts := ReadU32(base + NUM_PKTS);
      var pktOffset: nat := ReadU32(base + OFFSET_TO_FIRST_PKT);
      slices, frames := [], [];
      var i := 0;
      while i < numPkts
        invariant 0 <= i <= numPkts == NumPkts(block)
        invariant frames + Frames(block, pktOffset, numPkts - i) == BlockFrames(block)
        invariant |slices| == |frames| <= i
        invariant forall j :: 0 <= j < |slices| ==>
          InCurrentBlock(slices[j]) && frames[j] == ring[..][slices[j].start..slices[j].end]
        decreases numPkts - i
      {
        FramesStep(block, pktOffset, numPkts - i);
        if pktOffset + PACKET_HEADER_SIZE > BLOCK_SIZE {
          break;
        }
        ghost var before := frames;
        var slice, next := ReadPacket(pktOffset);
        if slice.Some? {
          slices := slices + [slice.value];
          frames := frames + [ring[slice.value.start..slice.value.end]];
          assert ring[slice.value.start..slice.value.end] == ring[..][slice.value.start..slice.value.end];
        }
        assert frames == before + FrameAt(block, pktOffset);
        if next == 0 {
          return;
        }
        assert before + (FrameAt(block, pktOffset) + Frames(block, pktOffset + next, numPkts - i - 1))
            == frames + Frames(block, pktOffset + next, numPkts - i - 1);
        pktOffset := pktOffset + next;
        i := i + 1;
      }
      FramesStep(block, pktOffset, numPkts - i);
    }

    /** Writes TP_STATUS_KERNEL to the status word of the current block. */
    method Release()
      requires Valid()
      modifies ring
      ensures Blocks(ring[..]) == old(Blocks(ring[..]))[currentBlock := Freed(old(Current()))]
    {
      var at := currentBlock * BLOCK_SIZE + BLOCK_STATUS;
      ring[at] := 0;
      ring[at + 1] := 0;
      ring[at + 2] := 0;
      ring[at + 3] := 0;
      StatusOverwritten(old(ring[..]), ring[..], currentBlock);
    }

    /** recv_block; polls are the returns of poll, each with what the kernel has put in the ring by then. */
    method RecvBlock(polls: seq<Poll>) returns (received: Received)
      requires Valid() && AllRings(polls)
      modifies this`currentBlock, ring
      ensures Valid()
      ensures
        var a := Await(old(ring[..]), old(currentBlock), polls);
        var taken := BlockOf(a.memory, old(currentBlock));
        match a
        case Ready(mem) =>
          && received == Delivered(BlockFrames(taken))
          && Blocks(ring[..]) == Blocks(mem)[old(currentBlock) := Freed(taken)]
          && currentBlock == (old(currentBlock) + 1) % 8
        case Failed(mem) =>
          received == PollFailed && ring[..] == mem && currentBlock == old(currentBlock)
        case Blocked(mem) =>
          received == Waiting && ring[..] == mem && currentBlock == old(currentBlock)
    {
      hide BlockFrames, Blocks, Freed, BlockOf, Le32, Le16;
      var n := 0;
      while true
        invariant 0 <= n <= |polls|
        invariant currentBlock == old(currentBlock)
        invariant Await(ring[..], currentBlock, polls[n..]) == Await(old(ring[..]), currentBlock, polls)
        decreases |polls| - n
      {
        DescriptorRead(ring[..], currentBlock);
        var status := ReadU32(currentBlock * BLOCK_SIZE + BLOCK_STATUS);
        if status % 2 == 1 {
          break;
        }
        if n == |polls| {
          return Waiting;
        }
        if polls[n].PollError? {
          return PollFailed;
        }
        var memory := polls[n].memory;
        forall k | 0 <= k < ring.Length {
          ring[k] := memory[k];
        }
        assert ring[..] == memory;
        assert polls[n..][1..] == polls[n + 1..];
        n := n + 1;
      }
      var slices, frames := WalkBlock();
      Release();
      currentBlock := (currentBlock + 1) % BLOCK_NR;
      received := Delivered(frames);
    }
  }

  /** Reads relative to a block base see that block. */
  lemma ReadInBlock(mem: seq<byte>, i: nat, off: nat)
    requires IsRing(mem) && i < BLOCK_NR
    ensures off + 4 <= BLOCK_SIZE ==> Le32(mem, i * BLOCK_SIZE + off) == Le32(BlockOf(mem, i), off)
    ensures off + 2 <= BLOCK_SIZE ==> Le16(mem, i * BLOCK_SIZE + off) == Le16(BlockOf(mem, i), off)
  {
    var base, next := i * BLOCK_SIZE, (i + 1) * BLOCK_SIZE;
    if off + 4 <= BLOCK_SIZE {
      SliceOfSlice(mem, base, next, off, off + 4);
    }
    if off + 2 <= BLOCK_SIZE {
      SliceOfSlice(mem, base, next, off, off + 2);
    }
  }

  lemma DescriptorRead(mem: seq<byte>, i: nat)
    requires IsRing(mem) && i < BLOCK_NR
    ensures User(BlockOf(mem, i)) <==> Le32(mem, i * BLOCK_SIZE + BLOCK_STATUS) % 2 == 1
    ensures NumPkts(BlockOf(mem, i)) == Le32(mem, i * BLOCK_SIZE + NUM_PKTS)
    ensures FirstPkt(BlockOf(mem, i)) == Le32(mem, i * BLOCK_SIZE + OFFSET_TO_FIRST_PKT)
  {
    hide Le32, BlockOf;
    ReadInBlock(mem, i, BLOCK_STATUS);
    ReadInBlock(mem, i, NUM_PKTS);
    ReadInBlock(mem, i, OFFSET_TO_FIRST_PKT);
  }

  /** One packet, in ring positions. */
  lemma PacketRead(mem: seq<byte>, i: nat, off: nat)
    requires IsRing(mem) && i < BLOCK_NR && HeaderFits(off)
    ensures
      var base := i * BLOCK_SIZE;
      var snaplen, mac := Le32(mem, base + off + TP_SNAPLEN), Le16(mem, base + off + TP_MAC);
      && NextOffset(BlockOf(mem, i), off) == Le32(mem, base + off + TP_NEXT_OFFSET)
      && FrameAt(BlockOf(mem, i), off) ==
           if off + mac + snaplen <= BLOCK_SIZE && snaplen > 0
           then [mem[base + off + mac..base + off + mac + snaplen]] else []
  {
    hide Le32, Le16;
    ReadInBlock(mem, i, off + TP_SNAPLEN);
    ReadInBlock(mem, i, off + TP_MAC);
    ReadInBlock(mem, i, off + TP_NEXT_OFFSET);
    var b := BlockOf(mem, i);
    var s := FrameSlice(b, off);
    if s.end <= BLOCK_SIZE && s.start < s.end {
      SliceOfSlice(mem, i * BLOCK_SIZE, (i + 1) * BLOCK_SIZE, s.start, s.end);
    }
  }

  lemma FramesStep(b: seq<byte>, off: nat, left: nat)
    requires IsBlock(b)
    ensures left == 0 || !HeaderFits(off) ==> Frames(b, off, left) == []
    ensures left > 0 && HeaderFits(off) && NextOffset(b, off) == 0 ==> Frames(b, off, left) == FrameAt(b, off)
    ensures left > 0 && HeaderFits(off) && NextOffset(b, off) != 0 ==>
      Frames(b, off, left) == FrameAt(b, off) + Frames(b, off + NextOffset(b, off), left - 1)
  {
    hide FrameAt, NextOffset;
  }

  /** Changing the four status bytes of one block frees it and leaves the other blocks alone. */
  lemma StatusOverwritten(before: seq<byte>, after: seq<byte>, i: nat)
    requires IsRing(before) && IsRing(after) && i < BLOCK_NR
    requires
      var at := i * BLOCK_SIZE + BLOCK_STATUS;
      after == before[at := 0][at + 1 := 0][at + 2 := 0][at + 3 := 0]
    ensures Blocks(after) == Blocks(before)[i := Freed(BlockOf(before, i))]
  {
    forall j: nat | j < BLOCK_NR
      ensures BlockOf(after, j) == if j == i then Freed(BlockOf(before, i)) else BlockOf(before, j)
    {
    }
  }
}
