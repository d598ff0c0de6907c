/** A classic-BPF machine with the six instructions the filters use. */
module Bpf {
  import opened Bytes

  const LDH_ABS: nat := 0x28
  const LDB_ABS: nat := 0x30
  const LDH_IND: nat := 0x48
  const LDX_MSH: nat := 0xb1
  const JEQ: nat := 0x15
  const RET: nat := 0x06

  /** libc::sock_filter. */
  datatype Insn = Insn(code: nat, jt: nat, jf: nat, k: nat)

  type Program = seq<Insn>

  datatype State = At(pc: nat, a: nat, x: nat) | Done(verdict: nat) | Stuck

  const START: State := At(0, 0, 0)

  /** A two-byte load; a load past the packet ends the run with verdict 0. */
  function LoadHalf(pkt: seq<byte>, s: State, at: nat): State
    requires s.At?
  {
    if at + 2 <= |pkt| then At(s.pc + 1, U16(pkt[at], pkt[at + 1]), s.x) else Done(0)
  }

  function Execute(insn: Insn, pkt: seq<byte>, s: State): State
    requires s.At?
  {
    if insn.code == LDH_ABS then LoadHalf(pkt, s, insn.k)
    else if insn.code == LDH_IND then LoadHalf(pkt, s, s.x + insn.k)
    else if insn.code == LDB_ABS then
      if insn.k < |pkt| then At(s.pc + 1, pkt[insn.k], s.x) else Done(0)
    else if insn.code == LDX_MSH then
      if insn.k < |pkt| then At(s.pc + 1, s.a, pkt[insn.k] % 16 * 4) else Done(0)
    else if insn.code == JEQ then At(s.pc + 1 + (if s.a == insn.k then insn.jt else insn.jf), s.a, s.x)
    else if insn.code == RET then Done(insn.k)
    else Stuck
  }

  function Step(prog: Program, pkt: seq<byte>, s: State): State {
    if !s.At? then s
    else if s.pc >= |prog| then Stuck
    else Execute(prog[s.pc], pkt, s)
  }

  /** The state after n steps. */
  function Steps(prog: Program, pkt: seq<byte>, s: State, n: nat): State
    decreases n
  {
    if n == 0 then s else Steps(prog, pkt, Step(prog, pkt, s), n - 1)
  }

  /** What running a program on a packet decides: bytes to keep, 0 to reject. */
  function Verdict(prog: Program, pkt: seq<byte>): State {
    Steps(prog, pkt, START, |prog|)
  }

  predicate Known(insn: Insn) {
    insn.code in {LDH_ABS, LDB_ABS, LDH_IND, LDX_MSH, JEQ, RET}
  }

  /** What a kernel checks before attaching: known instructions, jumps that stay inside, a return at the end. */
  predicate Checked(prog: Program) {
    && |prog| > 0
    && prog[|prog| - 1].code == RET
    && (forall i :: 0 <= i < |prog| ==> Known(prog[i]))
    && (forall i :: 0 <= i < |prog| && prog[i].code == JEQ ==>
          i + 1 + prog[i].jt < |prog| && i + 1 + prog[i].jf < |prog|)
  }

  /** A step of a checked program either halts or moves strictly forward and stays inside. */
  lemma Forward(prog: Program, pkt: seq<byte>, s: State)
    requires Checked(prog) && s.At? && s.pc < |prog|
    ensures
      var t := Step(prog, pkt, s);
      t.Done? || (t.At? && s.pc < t.pc < |prog|)
  {
    assert Known(prog[s.pc]);
    if s.pc == |prog| - 1 {
      assert prog[s.pc].code == RET;
    }
  }

  lemma {:induction false} DoneStays(prog: Program, pkt: seq<byte>, v: nat, n: nat)
    ensures Steps(prog, pkt, Done(v), n) == Done(v)
  {
    if n > 0 {
      DoneStays(prog, pkt, v, n - 1);
    }
  }

  lemma {:induction false} HaltsFrom(prog: Program, pkt: seq<byte>, s: State)
    requires Checked(prog) && s.At? && s.pc < |prog|
    ensures Steps(prog, pkt, s, |prog| - s.pc).Done?
    decreases |prog| - s.pc
  {
    Forward(prog, pkt, s);
    var t := Step(prog, pkt, s);
    if t.Done? {
      DoneStays(prog, pkt, t.verdict, |prog| - s.pc - 1);
    } else {
      HaltsFrom(prog, pkt, t);
      var v := Steps(prog, pkt, t, |prog| - t.pc).verdict;
      StepsAdd(prog, pkt, t, |prog| - t.pc, t.pc - s.pc - 1);
      DoneStays(prog, pkt, v, t.pc - s.pc - 1);
    }
  }

  lemma {:induction false} StepsAdd(prog: Program, pkt: seq<byte>, s: State, m: nat, n: nat)
    ensures Steps(prog, pkt, s, m + n) == Steps(prog, pkt, Steps(prog, pkt, s, m), n)
    decreases m
  {
    if m > 0 {
      StepsAdd(prog, pkt, Step(prog, pkt, s), m - 1, n);
    }
  }

  /** Every run of a checked program reaches a verdict within one step per instruction, and up to that moment
      it has stayed inside the program. */
  lemma CheckedHalts(prog: Program, pkt: seq<byte>)
    requires Checked(prog)
    ensures Verdict(prog, pkt).Done?
    ensures forall n: nat :: Inside(prog, Steps(prog, pkt, START, n))
  {
    HaltsFrom(prog, pkt, START);
    forall n: nat
      ensures Inside(prog, Steps(prog, pkt, START, n))
    {
      StaysInside(prog, pkt, START, n);
    }
  }

  predicate Inside(prog: Program, s: State) {
    match s
    case At(pc, _, _) => pc < |prog|
    case Done(_) => true
    case Stuck => false
  }

  lemma {:induction false} StaysInside(prog: Program, pkt: seq<byte>, s: State, n: nat)
    requires Checked(prog) && Inside(prog, s)
    ensures Inside(prog, Steps(prog, pkt, s, n))
    decreases n
  {
    if n > 0 {
      if s.At? {
        Forward(prog, pkt, s);
      }
      StaysInside(prog, pkt, Step(prog, pkt, s), n - 1);
    }
  }

  /** Running from s: what Verdict unfolds to, one instruction at a time. */
  function From(prog: Program, pkt: seq<byte>, s: State): State
    decreases if s.At? && s.pc < |prog| then |prog| - s.pc else 0
  {
    if s.At? && s.pc < |prog| then From(prog, pkt, Step(prog, pkt, s)) else Step(prog, pkt, s)
  }

  /** One instruction of a run. */
  lemma Hop(prog: Program, pkt: seq<byte>, s: State, t: State)
    requires s.At? && s.pc < |prog| && Step(prog, pkt, s) == t
    ensures From(prog, pkt, s) == From(prog, pkt, t)
  {
  }

  lemma {:induction false} FromIsSteps(prog: Program, pkt: seq<byte>, s: State)
    requires Checked(prog) && s.At? && s.pc < |prog|
    ensures From(prog, pkt, s) == Steps(prog, pkt, s, |prog| - s.pc)
    decreases |prog| - s.pc
  {
    Forward(prog, pkt, s);
    HaltsFrom(prog, pkt, s);
    var t := Step(prog, pkt, s);
    if t.Done? {
      DoneStays(prog, pkt, t.verdict, |prog| - s.pc - 1);
    } else {
      FromIsSteps(prog, pkt, t);
      HaltsFrom(prog, pkt, t);
      var v := Steps(prog, pkt, t, |prog| - t.pc).verdict;
      StepsAdd(prog, pkt, t, |prog| - t.pc, t.pc - s.pc - 1);
      DoneStays(prog, pkt, v, t.pc - s.pc - 1);
    }
  }
}
