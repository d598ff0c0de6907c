/** The two-party block protocol: the kernel retires blocks in cyclic order while recv_block, step by step, walks,
    releases and advances. Steps of the two interleave freely. */
module RingProtocol {
  import opened Bytes
  import opened RingBlock
  import RingConsumer

  /** Where the consumer is inside recv_block. */
  datatype Phase =
    | Polling
    | Walking(off: nat, left: nat)
    | Walked
    | Released

  /** blocks, kernelNext, current and phase are the shared and private state. delivered, retired and released
      record the history: the frames handed out, every block as it was when retired, how many were given back. */
  datatype State = State(
    blocks: seq<seq<byte>>, kernelNext: nat, current: nat, phase: Phase,
    delivered: seq<seq<byte>>, retired: seq<seq<byte>>, released: nat)

  predicate WellSized(blocks: seq<seq<byte>>) {
    |blocks| == BLOCK_NR && forall i :: 0 <= i < BLOCK_NR ==> IsBlock(blocks[i])
  }

  ghost predicate Init(s: State) {
    && WellSized(s.blocks)
    && (forall i :: 0 <= i < BLOCK_NR ==> !User(s.blocks[i]))
    && s == State(s.blocks, 0, 0, Polling, [], [], 0)
  }

  // ---- the kernel (assumed): it writes only blocks it owns, and retires them in cyclic order ----

  ghost predicate KernelWrite(s: State, t: State, i: nat, b: seq<byte>)
    requires WellSized(s.blocks)
  {
    && i < BLOCK_NR && IsBlock(b)
    && !User(s.blocks[i]) && !User(b)
    && t == s.(blocks := s.blocks[i := b])
  }

  ghost predicate KernelRetire(s: State, t: State, b: seq<byte>)
    requires WellSized(s.blocks)
  {
    && s.kernelNext < BLOCK_NR && IsBlock(b)
    && !User(s.blocks[s.kernelNext]) && User(b)
    && t == s.(blocks := s.blocks[s.kernelNext := b], kernelNext := (s.kernelNext + 1) % BLOCK_NR,
               retired := s.retired + [b])
  }

  // ---- the consumer ----

  /** One step of recv_block: a status read, one packet of the chain, the release, or the index advance. The step that
      sees the USER bit also reads num_pkts and offset_to_first_pkt, and a walking step reads a whole header and frame;
      the program reads those one after the other, which comes to the same as a block holds still while it is USER
      (UserBlockHoldsStill). */
  function Consume(s: State): State
    requires WellSized(s.blocks) && s.current < BLOCK_NR
  {
    var b := s.blocks[s.current];
    match s.phase
    case Polling =>
      if User(b) then s.(phase := Walking(FirstPkt(b), NumPkts(b))) else s
    case Walking(off, left) =>
      if left == 0 || !HeaderFits(off) then s.(phase := Walked)
      else
        var t := s.(delivered := s.delivered + FrameAt(b, off));
        if NextOffset(b, off) == 0 then t.(phase := Walked)
        else t.(phase := Walking(off + NextOffset(b, off), left - 1))
    case Walked =>
      s.(blocks := s.blocks[s.current := Freed(b)], phase := Released, released := s.released + 1)
    case Released =>
      s.(current := (s.current + 1) % BLOCK_NR, phase := Polling)
  }

  ghost predicate Next(s: State, t: State) {
    && WellSized(s.blocks) && s.current < BLOCK_NR
    && ((exists i, b :: KernelWrite(s, t, i, b)) || (exists b :: KernelRetire(s, t, b)) || t == Consume(s))
  }

  /** A run: any interleaving of kernel and consumer steps. */
  ghost predicate Run(trace: seq<State>) {
    && |trace| > 0
    && Init(trace[0])
    && forall i :: 0 <= i < |trace| - 1 ==> Next(trace[i], trace[i + 1])
  }

  // ---- the invariant ----

  /** The ring slot of the j-th retired block. */
  function Slot(j: nat): (i: nat)
    ensures i < BLOCK_NR
  {
    j % BLOCK_NR
  }

  ghost predicate AllBlocks(bs: seq<seq<byte>>) {
    forall j :: 0 <= j < |bs| ==> IsBlock(bs[j])
  }

  /** The frames of a list of blocks, in order. */
  ghost function AllFrames(bs: seq<seq<byte>>): seq<seq<byte>>
    requires AllBlocks(bs)
  {
    if |bs| == 0 then [] else AllFrames(bs[..|bs| - 1]) + BlockFrames(bs[|bs| - 1])
  }

  /** Retired and not yet released blocks sit in their slots, unchanged; every other slot is the kernel's. */
  ghost predicate Window(s: State)
    requires WellSized(s.blocks)
  {
    && s.released <= |s.retired| <= s.released + BLOCK_NR
    && (forall j :: s.released <= j < |s.retired| ==> s.blocks[Slot(j)] == s.retired[j])
    && (forall j :: |s.retired| <= j < s.released + BLOCK_NR ==> !User(s.blocks[Slot(j)]))
  }

  ghost predicate Indices(s: State) {
    && s.kernelNext == Slot(|s.retired|)
    && (match s.phase
        case Polling => s.current == Slot(s.released)
        case Released => s.released > 0 && s.current == Slot(s.released - 1)
        case _ => s.released < |s.retired| && s.current == Slot(s.released))
  }

  /** What the walk in progress has still to deliver. */
  ghost function Pending(s: State): seq<seq<byte>>
    requires WellSized(s.blocks) && s.current < BLOCK_NR
  {
    match s.phase
    case Walking(off, left) => Frames(s.blocks[s.current], off, left)
    case _ => []
  }

  /** The number of retired blocks whose walk has begun. */
  function Begun(s: State): nat {
    if s.phase.Walking? || s.phase.Walked? then s.released + 1 else s.released
  }

  ghost predicate Inv(s: State) {
    && WellSized(s.blocks) && AllBlocks(s.retired)
    && (forall j :: 0 <= j < |s.retired| ==> User(s.retired[j]))
    && Window(s) && Indices(s)
    && s.delivered + Pending(s) == AllFrames(s.retired[..Begun(s)])
    && AllFrames(s.retired[..s.released]) <= s.delivered
  }

  lemma SlotsApart(j: nat, k: nat)
    requires j < k < j + BLOCK_NR
    ensures Slot(j) != Slot(k)
  {
  }

  lemma SlotNext(j: nat)
    ensures (Slot(j) + 1) % BLOCK_NR == Slot(j + 1)
    ensures Slot(j + BLOCK_NR) == Slot(j)
  {
  }

  lemma SlotCover(c: nat, i: nat)
    requires i < BLOCK_NR
    ensures exists j :: c <= j < c + BLOCK_NR && Slot(j) == i
  {
    var j := c + (i + BLOCK_NR - Slot(c)) % BLOCK_NR;
    assert Slot(j) == i;
  }

  lemma InitInv(s: State)
    requires Init(s)
    ensures Inv(s)
  {
  }

  lemma KernelWriteInv(s: State, t: State, i: nat, b: seq<byte>)
    requires Inv(s) && KernelWrite(s, t, i, b)
    ensures Inv(t)
  {
    hide Frames, BlockFrames, User;
    forall j | s.released <= j < |s.retired|
      ensures Slot(j) != i
    {
      assert User(s.retired[j]);
    }
  }

  lemma KernelRetireInv(s: State, t: State, b: seq<byte>)
    requires Inv(s) && KernelRetire(s, t, b)
    ensures Inv(t)
  {
    hide Frames, BlockFrames, User;
    var r := |s.retired|;
    if r == s.released + BLOCK_NR {
      SlotNext(s.released);
      assert false;
    }
    SlotNext(r);
    forall j | s.released <= j < s.released + BLOCK_NR && j != r
      ensures Slot(j) != Slot(r)
    {
      SlotsApart(if j < r then j else r, if j < r then r else j);
    }
    assert t.retired[..Begun(t)] == s.retired[..Begun(s)];
    assert t.retired[..t.released] == s.retired[..s.released];
  }

  lemma AllFramesSnoc(bs: seq<seq<byte>>, c: nat)
    requires AllBlocks(bs) && c < |bs|
    ensures AllFrames(bs[..c + 1]) == AllFrames(bs[..c]) + BlockFrames(bs[c])
  {
    assert bs[..c + 1][..c] == bs[..c];
  }

  lemma ConsumeInv(s: State)
    requires Inv(s)
    ensures Inv(Consume(s))
  {
    hide Inv, Consume;
    match s.phase {
      case Polling =>
        PollInv(s);
      case Walking(off, left) =>
        WalkInv(s);
      case Walked =>
        ReleaseInv(s);
      case Released =>
        AdvanceInv(s);
    }
  }

  lemma WalkInv(s: State)
    requires Inv(s) && s.phase.Walking?
    ensures Inv(Consume(s))
  {
    hide FrameAt, NextOffset, User, FirstPkt, NumPkts, AllFrames, Slot;
    var t := Consume(s);
    var off, left := s.phase.off, s.phase.left;
    assert Pending(s) == Frames(s.blocks[s.current], off, left);
    if left > 0 && HeaderFits(off) {
      assert s.delivered + (FrameAt(s.blocks[s.current], off) + Pending(t)) == t.delivered + Pending(t);
    }
  }

  lemma AdvanceInv(s: State)
    requires Inv(s) && s.phase.Released?
    ensures Inv(Consume(s))
  {
    hide Frames, User, AllFrames;
    SlotNext(s.released - 1);
  }

  lemma PollInv(s: State)
    requires Inv(s) && s.phase.Polling?
    ensures Inv(Consume(s))
  {
    hide Frames, User, FirstPkt, NumPkts, AllFrames;
    var c := s.released;
    if User(s.blocks[s.current]) {
      assert c < |s.retired|;
      assert s.blocks[Slot(c)] == s.retired[c];
      AllFramesSnoc(s.retired, c);
    }
  }

  lemma ReleaseInv(s: State)
    requires Inv(s) && s.phase.Walked?
    ensures Inv(Consume(s))
  {
    hide Frames, BlockFrames, User, Freed;
    var t := Consume(s);
    var c := s.released;
    SlotNext(c);
    forall j | c < j < c + BLOCK_NR
      ensures t.blocks[Slot(j)] == s.blocks[Slot(j)]
    {
      SlotsApart(c, j);
    }
    assert t.blocks[Slot(c + BLOCK_NR)] == Freed(s.blocks[s.current]);
  }

  lemma NextInv(s: State, t: State)
    requires Inv(s) && Next(s, t)
    ensures Inv(t)
  {
    hide Inv, Consume;
    if i, b :| KernelWrite(s, t, i, b) {
      KernelWriteInv(s, t, i, b);
    } else if b :| KernelRetire(s, t, b) {
      KernelRetireInv(s, t, b);
    } else {
      ConsumeInv(s);
    }
  }

  lemma {:induction false} RunInv(trace: seq<State>, n: nat)
    requires Run(trace) && n < |trace|
    ensures Inv(trace[n])
  {
    if n == 0 {
      InitInv(trace[0]);
    } else {
      RunInv(trace, n - 1);
      assert Next(trace[n - 1], trace[n - 1 + 1]);
      NextInv(trace[n - 1], trace[n]);
    }
  }

  // ---- what every run keeps ----

  /** In every run the USER blocks are exactly the cyclic window of retired and not yet released blocks, which starts
      at current_block, or one past it between the release and the advance. */
  lemma UserBlocksAreTheWindow(trace: seq<State>, n: nat)
    requires Run(trace) && n < |trace|
    ensures
      var s := trace[n];
      && WellSized(s.blocks) && s.released <= |s.retired|
      && (if s.phase.Released? then (s.current + 1) % 8 else s.current) == s.released % 8
      && s.kernelNext == |s.retired| % 8
      && forall i :: 0 <= i < 8 ==>
           (User(s.blocks[i]) <==> exists j :: s.released <= j < |s.retired| && Slot(j) == i)
  {
    RunInv(trace, n);
    var s := trace[n];
    if s.phase.Released? {
      SlotNext(s.released - 1);
    }
    forall i | 0 <= i < BLOCK_NR
      ensures User(s.blocks[i]) <==> exists j :: s.released <= j < |s.retired| && Slot(j) == i
    {
      SlotCover(s.released, i);
    }
  }

  /** First in, first out, exactly once: between two calls of recv_block the frames delivered are those of the released
      blocks, each as it was when retired, in retirement order; during a walk they are a prefix reaching at most to
      the end of the next block. */
  lemma FifoExactlyOnce(trace: seq<State>, n: nat)
    requires Run(trace) && n < |trace|
    ensures
      var s := trace[n];
      && AllBlocks(s.retired) && s.released <= |s.retired|
      && (s.phase.Polling? || s.phase.Released? ==> s.delivered == AllFrames(s.retired[..s.released]))
      && (s.phase.Walking? || s.phase.Walked? ==>
            && s.released < |s.retired|
            && AllFrames(s.retired[..s.released]) <= s.delivered <= AllFrames(s.retired[..s.released + 1]))
  {
    RunInv(trace, n);
  }

  /** When nothing retired is waiting, every frame of every retired block has been delivered. */
  lemma DrainedMeansAllDelivered(trace: seq<State>, n: nat)
    requires Run(trace) && n < |trace|
    requires trace[n].phase.Polling? && WellSized(trace[n].blocks) && trace[n].current < BLOCK_NR
    requires !User(trace[n].blocks[trace[n].current])
    ensures AllBlocks(trace[n].retired) && trace[n].delivered == AllFrames(trace[n].retired)
  {
    RunInv(trace, n);
    var s := trace[n];
    if s.released < |s.retired| {
      assert false;
    }
    assert s.retired[..s.released] == s.retired;
  }

  /** A walk reads only a block the kernel has retired and not got back, with the contents it was retired with. */
  lemma ReadsOnlyUserBlocks(trace: seq<State>, n: nat)
    requires Run(trace) && n < |trace| && (trace[n].phase.Walking? || trace[n].phase.Walked?)
    ensures
      var s := trace[n];
      && WellSized(s.blocks) && s.current < BLOCK_NR && s.released < |s.retired|
      && s.blocks[s.current] == s.retired[s.released] && User(s.blocks[s.current])
  {
    RunInv(trace, n);
  }

  /** Until recv_block itself releases it, no step of either side changes a USER block, so it does not matter whether
      the consumer reads its fields in one step or in several. */
  lemma UserBlockHoldsStill(s: State, t: State, i: nat)
    requires Next(s, t) && i < BLOCK_NR && User(s.blocks[i])
    requires t == Consume(s) ==> !(s.phase.Walked? && s.current == i)
    ensures |t.blocks| == BLOCK_NR && t.blocks[i] == s.blocks[i]
  {
    hide User, Frames, Freed;
  }

  // ---- one undisturbed call ----

  function ConsumeN(s: State, n: nat): State
    requires WellSized(s.blocks) && s.current < BLOCK_NR
    decreases n
  {
    if n == 0 then s else ConsumeN(Consume(s), n - 1)
  }

  /** Walking to the end of the chain takes at most one step per packet and one to stop. */
  lemma {:induction false} WalkEnds(s: State) returns (n: nat)
    requires WellSized(s.blocks) && s.current < BLOCK_NR && s.phase.Walking?
    ensures n <= s.phase.left + 1
    ensures ConsumeN(s, n) == s.(phase := Walked,
      delivered := s.delivered + Frames(s.blocks[s.current], s.phase.off, s.phase.left))
    decreases s.phase.left
  {
    hide FrameAt, NextOffset;
    var b, off, left := s.blocks[s.current], s.phase.off, s.phase.left;
    var t := Consume(s);
    n := 1;
    assert ConsumeN(s, 1) == ConsumeN(t, 0) == t;
    if left > 0 && HeaderFits(off) && NextOffset(b, off) != 0 {
      var m := WalkEnds(t);
      n := m + 1;
      assert s.delivered + (FrameAt(b, off) + Frames(b, t.phase.off, t.phase.left))
          == t.delivered + Frames(b, t.phase.off, t.phase.left);
    }
  }

  lemma {:induction false} ConsumeNAdd(s: State, m: nat, n: nat)
    requires WellSized(s.blocks) && s.current < BLOCK_NR
    requires var t := ConsumeN(s, m); WellSized(t.blocks) && t.current < BLOCK_NR
    ensures ConsumeN(s, m + n) == ConsumeN(ConsumeN(s, m), n)
    decreases m
  {
    if m > 0 {
      ConsumeNAdd(Consume(s), m - 1, n);
    }
  }

  /** With no kernel step in between, the steps from a ready block on do what one recv_block call promises:
      the block's frames, its release and the advance, within num_pkts + 4 steps. */
  lemma OneCall(s: State) returns (n: nat)
    requires WellSized(s.blocks) && s.current < BLOCK_NR && s.phase.Polling? && User(s.blocks[s.current])
    ensures n <= NumPkts(s.blocks[s.current]) + 4
    ensures ConsumeN(s, n) == s.(
      blocks := s.blocks[s.current := Freed(s.blocks[s.current])],
      delivered := s.delivered + BlockFrames(s.blocks[s.current]),
      current := (s.current + 1) % BLOCK_NR,
      released := s.released + 1)
  {
    hide Frames, Freed, User, FirstPkt, NumPkts, FrameAt, NextOffset;
    var t := Consume(s);
    var m := WalkEnds(t);
    var w := ConsumeN(t, m);
    ConsumeNAdd(t, m, 2);
    var r := Consume(w);
    assert ConsumeN(w, 2) == ConsumeN(r, 1) == ConsumeN(Consume(r), 0) == Consume(r);
    n := m + 3;
    assert ConsumeN(s, n) == ConsumeN(t, m + 2);
  }

  lemma {:induction false} ConsumeNInv(s: State, n: nat)
    requires Inv(s)
    ensures Inv(ConsumeN(s, n)) && ConsumeN(s, n).retired == s.retired
    decreases n
  {
    hide Inv;
    if n > 0 {
      InvReady(s);
      ConsumeInv(s);
      ConsumeNInv(Consume(s), n - 1);
    }
  }

  lemma InvReady(s: State)
    requires Inv(s)
    ensures WellSized(s.blocks) && s.current < BLOCK_NR
  {
  }

  lemma ConsumeSteps(s: State, m: nat, n: nat)
    requires Inv(s)
    ensures Inv(ConsumeN(s, m)) && ConsumeN(s, m + n) == ConsumeN(ConsumeN(s, m), n)
  {
    hide Inv;
    ConsumeNInv(s, m);
    InvReady(s);
    InvReady(ConsumeN(s, m));
    ConsumeNAdd(s, m, n);
  }

  /** From the middle of a call the consumer reaches its end. */
  lemma CallEnds(s: State) returns (n: nat)
    requires Inv(s)
    ensures Inv(ConsumeN(s, n)) && ConsumeN(s, n).phase.Polling?
    ensures ConsumeN(s, n).retired == s.retired && ConsumeN(s, n).released >= s.released
  {
    hide Inv, Frames, Freed, User, FirstPkt, NumPkts, FrameAt, NextOffset;
    InvReady(s);
    match s.phase {
      case Polling =>
        n := 0;
      case Walking(off, left) =>
        var m := WalkEnds(s);
        ConsumeSteps(s, m, 2);
        TwoSteps(ConsumeN(s, m));
        n := m + 2;
      case Walked =>
        TwoSteps(s);
        n := 2;
      case Released =>
        assert ConsumeN(s, 1) == ConsumeN(Consume(s), 0) == Consume(s);
        n := 1;
    }
    ConsumeNInv(s, n);
  }

  lemma TwoSteps(s: State)
    requires WellSized(s.blocks) && s.current < BLOCK_NR && s.phase.Walked?
    ensures var t := ConsumeN(s, 2); t.phase.Polling? && t.retired == s.retired && t.released == s.released + 1
  {
    hide Freed;
    var r := Consume(s);
    assert ConsumeN(s, 2) == ConsumeN(r, 1) == ConsumeN(Consume(r), 0) == Consume(r);
  }

  /** Between calls the current block is USER as long as a retired block waits. */
  lemma WaitingIsUser(s: State)
    requires Inv(s) && s.phase.Polling?
    ensures s.released <= |s.retired|
    ensures s.released < |s.retired| ==> User(s.blocks[s.current])
    ensures AllBlocks(s.retired) && s.delivered == AllFrames(s.retired[..s.released])
  {
    hide User, Frames, AllFrames;
    if s.released < |s.retired| {
      assert s.blocks[Slot(s.released)] == s.retired[s.released];
    }
  }

  lemma {:induction false} Drain(s: State) returns (n: nat)
    requires Inv(s) && s.phase.Polling?
    ensures Inv(ConsumeN(s, n)) && ConsumeN(s, n).phase.Polling?
    ensures ConsumeN(s, n).retired == s.retired && ConsumeN(s, n).released == |s.retired|
    decreases |s.retired| - s.released
  {
    hide Inv, Frames, Freed, User, FirstPkt, NumPkts, FrameAt, NextOffset, BlockFrames;
    InvReady(s);
    WaitingIsUser(s);
    if s.released == |s.retired| {
      n := 0;
    } else {
      var m := OneCall(s);
      ConsumeNInv(s, m);
      var t := ConsumeN(s, m);
      var k := Drain(t);
      ConsumeSteps(s, m, k);
      n := m + k;
    }
  }

  /** Progress: from every state of every run, the consumer left alone comes, in some number of steps, to the end of a
      call with every retired block released and exactly the frames of all of them delivered. */
  lemma EveryBlockIsDelivered(trace: seq<State>, i: nat) returns (n: nat)
    requires Run(trace) && i < |trace|
    ensures
      var s := trace[i];
      && WellSized(s.blocks) && s.current < BLOCK_NR
      && var t := ConsumeN(s, n);
      && t.phase.Polling? && t.retired == s.retired && t.released == |s.retired|
      && AllBlocks(s.retired) && t.delivered == AllFrames(s.retired)
  {
    hide Inv, ConsumeN, AllFrames, Run;
    RunInv(trace, i);
    var s := trace[i];
    InvReady(s);
    var m := CallEnds(s);
    var k := Drain(ConsumeN(s, m));
    ConsumeSteps(s, m, k);
    n := m + k;
    WaitingIsUser(ConsumeN(s, n));
    assert s.retired[..|s.retired|] == s.retired;
  }

  /** The contract of RecvBlock is what the steps do: from the memory on which its wait loop stops, some number of
      consumer steps hands out the frames, frees the block and advances as RecvBlock promises for that memory. */
  lemma RecvBlockIsSteps(mem: seq<byte>, polls: seq<RingConsumer.Poll>, s: State) returns (n: nat)
    requires IsRing(mem) && s.current < BLOCK_NR && RingConsumer.AllRings(polls)
    requires
      var a := RingConsumer.Await(mem, s.current, polls);
      a.Ready? && s.blocks == Blocks(a.memory) && s.phase.Polling?
    ensures
      var found := RingConsumer.Await(mem, s.current, polls).memory;
      var taken := BlockOf(found, s.current);
      var t := ConsumeN(s, n);
      && t.blocks == Blocks(found)[s.current := Freed(taken)]
      && t.delivered == s.delivered + BlockFrames(taken)
      && t.current == (s.current + 1) % BLOCK_NR
      && t.phase.Polling?
  {
    hide ConsumeN, BlockFrames, Freed;
    ReadyIsUser(mem, s.current, polls);
    assert s.blocks[s.current] == BlockOf(RingConsumer.Await(mem, s.current, polls).memory, s.current);
    n := OneCall(s);
  }

  /** The wait loop stops only on a block with its USER bit set. */
  lemma {:induction false} ReadyIsUser(mem: seq<byte>, current: nat, polls: seq<RingConsumer.Poll>)
    requires IsRing(mem) && current < BLOCK_NR && RingConsumer.AllRings(polls)
    requires RingConsumer.Await(mem, current, polls).Ready?
    ensures User(BlockOf(RingConsumer.Await(mem, current, polls).memory, current))
    decreases |polls|
  {
    hide User, BlockOf;
    if !User(BlockOf(mem, current)) {
      ReadyIsUser(polls[0].memory, current, polls[1..]);
    }
  }
}
