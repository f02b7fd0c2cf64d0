/** PUSHA with POPA and ENTER with LEAVE as whole instructions, with any size prefixes. */
module FrameRuns {
  import opened Words
  import opened FlatMemory
  import opened Arithmetic
  import opened CpuState
  import opened Isa
  import opened PrefixChains
  import opened Pointers
  import opened StackRuns
  import opened Frames
  import opened Instructions

  const PUSHA := 0x60
  const POPA := 0x61
  const ENTER := 0xC8
  const LEAVE := 0xC9

  lemma Handlers(t: Cpu)
    ensures t.opbyte == PUSHA ==> Handler(t) == Pusha(t)
    ensures t.opbyte == POPA ==> Handler(t) == Popa(t)
    ensures t.opbyte == ENTER ==> Handler(t) == Enter(t)
    ensures t.opbyte == LEAVE ==> Handler(t) == LeaveFrame(t)
  {
    hide Pusha, Popa, Enter, LeaveFrame;
  }

  /** `u` runs later: with the stack pointer that `t` had, and the upper halves of the registers of `s`
      where a 16-bit instruction does not reach them. */
  ghost predicate Later(s: Cpu, t: Cpu, u: Cpu, low: bool) {
    && u.regs[ESP] == t.regs[ESP]
    && (low ==> forall i: RegisterIndex :: s.regs[i] / 0x1_0000 == u.regs[i] / 0x1_0000)
  }

  /** `t` differs from `s` in ESP, `eip` and gas, and in bytes of the first `depth` slots below the stack pointer. */
  ghost predicate OnlyBlock(s: Cpu, t: Cpu, depth: nat, low: bool) {
    t.regs == s.regs[ESP := t.regs[ESP]] && t.freg == s.freg && OnlyBytes(s, t, depth, low)
  }

  /** The same of memory alone. */
  ghost predicate OnlyBytes(s: Cpu, t: Cpu, depth: nat, low: bool) {
    && t.memory.bytes.Keys == s.memory.bytes.Keys && t.memory.rom == s.memory.rom
    && forall x :: x in s.memory.bytes && OutsideSlots(x, s.regs[ESP], depth, low) ==> t.memory.bytes[x] == s.memory.bytes[x]
  }

  /** A POPA restores every register to what it was before the PUSHA whose block it finds; the PUSHA writes only its
      block. */
  lemma PushaThenPopa(s: Cpu, ps: seq<uint8>, u: Cpu, qs: seq<uint8>)
    requires Prefixed(s, ps, PUSHA) && Cycle(s).Ok? && Prefixed(u, qs, POPA)
    requires OPERAND_SIZE in ps <==> OPERAND_SIZE in qs
    requires Later(s, Cycle(s).value, u, OPERAND_SIZE in ps)
    requires SlotsKept(Cycle(s).value.memory, u.memory, s.regs[ESP], 8, OPERAND_SIZE in ps)
    ensures OnlyBlock(s, Cycle(s).value, 8, OPERAND_SIZE in ps) && Cycle(s).value.eip == At(s, ps, 1)
    ensures Stored(Cycle(s).value.memory, OPERAND_SIZE in ps, s.regs[ESP], General(Started(s, ps, PUSHA)))
    ensures Cycle(u).Ok? && Cycle(u).value.eip == At(u, qs, 1)
    ensures Cycle(u).value.regs == s.regs && Cycle(u).value.memory == u.memory && Cycle(u).value.freg == u.freg
  {
    hide Cycle, Pusha, Popa, Handler, SlotsKept, OutsideSlots, Stored, General, Bump;
    var s1, u1 := Started(s, ps, PUSHA), Started(u, qs, POPA);
    PrefixedCycle(s, ps, PUSHA);
    PrefixedCycle(u, qs, POPA);
    Handlers(s1);
    Handlers(u1);
    PushaSaves(s1);
    PopaUndoesPusha(s1, u1);
    WrapAdd(s.eip + |ps|, 1);
    WrapAdd(u.eip + |qs|, 1);
  }

  // ----- ENTER by its bytes -----

  /** The frame size: the word after the opcode. */
  ghost function FrameSize(s: Cpu, ps: seq<uint8>): uint16
    requires Mapped(s.memory, At(s, ps, 1), 2)
  {
    var lo, hi := s.memory.bytes[At(s, ps, 1)] as int, s.memory.bytes[At(s, ps, 1) + 1] as int;
    lo + 0x100 * hi
  }

  /** The nesting level: the low five bits of the byte after that. */
  ghost function Nesting(s: Cpu, ps: seq<uint8>): nat
    requires Mapped(s.memory, At(s, ps, 3), 1)
  {
    s.memory.bytes[At(s, ps, 3)] % 32
  }

  lemma EnterOperands(s: Cpu, ps: seq<uint8>)
    requires Enter(Started(s, ps, ENTER)).Ok?
    ensures Mapped(s.memory, At(s, ps, 1), 2) && Mapped(s.memory, At(s, ps, 3), 1)
    ensures
      var t := Started(s, ps, ENTER);
      Enter(t) == EnterFrame(Skip(t, 3), FrameSize(s, ps), Nesting(s, ps))
  {
    hide EnterFrame, Enter, Get, Mapped, ReadCode, ReadCode8, FrameSize, Nesting, WordAt, Wrap16;
    var t := Started(s, ps, ENTER);
    EnterFetches(t);
    FetchesAt(s, ps, ENTER, 1, 2);
    LevelFetch(s, ps);
    OperandValues(s, ps);
  }

  lemma OperandValues(s: Cpu, ps: seq<uint8>)
    requires Mapped(s.memory, At(s, ps, 1), 2) && Mapped(s.memory, At(s, ps, 3), 1)
    ensures Wrap16(WordAt(s.memory, At(s, ps, 1), 2)) == FrameSize(s, ps)
    ensures WordAt(s.memory, At(s, ps, 3), 1) % 0x100 % 32 == Nesting(s, ps)
  {
    hide Get;
    TwoBytesAt(s.memory, At(s, ps, 1));
    OneByte(s.memory, At(s, ps, 3));
  }

  lemma EnterFetches(t: Cpu)
    requires Enter(t).Ok?
    ensures ReadCode(t, 1, 2).Ok? && ReadCode8(Skip(t, 2), 1).Ok?
    ensures Enter(t) == EnterFrame(Skip(t, 3), Wrap16(ReadCode(t, 1, 2).value), ReadCode8(Skip(t, 2), 1).value % 32)
  {
    hide EnterFrame, Read;
    WrapAdd(t.eip + 2, 1);
  }

  lemma LevelFetch(s: Cpu, ps: seq<uint8>)
    ensures
      var r := ReadCode8(Skip(Started(s, ps, ENTER), 2), 1);
      && (r.Ok? <==> Mapped(s.memory, At(s, ps, 3), 1))
      && (r.Ok? ==> r.value == WordAt(s.memory, At(s, ps, 3), 1) % 0x100)
  {
    hide Get, Mapped;
    WrapAdd(s.eip + |ps|, 2);
    WrapAdd(s.eip + |ps| + 2, 1);
  }

  /** A completed ENTER, by its bytes: EBP on the slot below the stack pointer, ESP as many bytes below that as
      the frame size says, the saved words of the nesting level, and `eip` past the four bytes. */
  lemma EnterInstruction(s: Cpu, ps: seq<uint8>)
    requires Prefixed(s, ps, ENTER) && Cycle(s).Ok?
    ensures Mapped(s.memory, At(s, ps, 1), 2) && Mapped(s.memory, At(s, ps, 3), 1)
    ensures
      var u, top, low, level := Cycle(s).value, s.regs[ESP], Narrow(ps), Nesting(s, ps);
      && u.eip == At(s, ps, 4) && u.freg == s.freg
      && Pointer(u.regs[EBP], low) == Slot(top, 1, low)
      && Pointer(u.regs[ESP], low) == Truncate(Slot(top, 1, low) as int - FrameSize(s, ps), low)
      && Stored(u.memory, low, top, EnterSaves(Started(s, ps, ENTER), level))
      && u.regs == s.regs[EBP := u.regs[EBP]][ESP := u.regs[ESP]]
      && (low ==> u.regs[EBP] / 0x1_0000 == s.regs[EBP] / 0x1_0000 && u.regs[ESP] / 0x1_0000 == s.regs[ESP] / 0x1_0000)
      && OnlyBytes(s, u, level + 1, low)
  {
    hide Cycle, EnterFrame, Enter, Handler, Prefixed, OutsideSlots, Stored, EnterSaves, FrameSize, Nesting, Slot, Truncate;
    var t := Started(s, ps, ENTER);
    PrefixedCycle(s, ps, ENTER);
    Handlers(t);
    EnterOperands(s, ps);
    var v, size, level := Skip(t, 3), FrameSize(s, ps), Nesting(s, ps);
    NestingBound(s, ps);
    EnterBuilds(v, size, level);
    SameSaves(t, v, level);
    assert Flat(s) by {
      StartsFlat(s, ps);
    }
    FrameEnds(s, ps, v, EnterFrame(v, size, level).value, level);
  }

  lemma StartsFlat(s: Cpu, ps: seq<uint8>)
    requires Prefixed(s, ps, ENTER)
    ensures Flat(s)
  {
  }

  lemma NestingBound(s: Cpu, ps: seq<uint8>)
    requires Mapped(s.memory, At(s, ps, 3), 1)
    ensures Nesting(s, ps) < 32
  {
  }

  lemma SameSaves(t: Cpu, v: Cpu, level: nat)
    requires v == t.(eip := v.eip)
    ensures EnterSaves(v, level) == EnterSaves(t, level)
  {
    hide Slot, Display;
  }

  /** What the frame law says of the state that the cycle leaves. */
  lemma FrameEnds(s: Cpu, ps: seq<uint8>, v: Cpu, u: Cpu, level: nat)
    requires Flat(s) && v == Skip(Started(s, ps, ENTER), 3)
    requires OnlyFrame(v, u, s.regs[ESP], level + 1) && SameUpper(v, u, ESP)
    ensures Skip(u, 1).eip == At(s, ps, 4) && u.freg == s.freg
    ensures u.regs == s.regs[EBP := u.regs[EBP]][ESP := u.regs[ESP]]
    ensures Narrow(ps) ==> u.regs[EBP] / 0x1_0000 == s.regs[EBP] / 0x1_0000 && u.regs[ESP] / 0x1_0000 == s.regs[ESP] / 0x1_0000
    ensures OnlyBytes(s, u, level + 1, Narrow(ps))
  {
    hide OutsideSlots;
    WrapAdd(s.eip + |ps|, 3);
    WrapAdd(s.eip + |ps| + 3, 1);
  }

  /** A LEAVE restores ESP and EBP to what they were before the ENTER whose frame it finds, whatever frame
      size and nesting level the ENTER was given. */
  lemma EnterThenLeave(s: Cpu, ps: seq<uint8>, u: Cpu, qs: seq<uint8>)
    requires Prefixed(s, ps, ENTER) && Cycle(s).Ok? && Prefixed(u, qs, LEAVE)
    requires OPERAND_SIZE in ps <==> OPERAND_SIZE in qs
    requires u.regs[EBP] == Cycle(s).value.regs[EBP]
    requires OPERAND_SIZE in ps ==> u.regs[ESP] / 0x1_0000 == s.regs[ESP] / 0x1_0000
    requires SlotsKept(Cycle(s).value.memory, u.memory, s.regs[ESP], 1, OPERAND_SIZE in ps)
    ensures Cycle(u).Ok?
    ensures Cycle(u).value.regs == u.regs[ESP := s.regs[ESP]][EBP := s.regs[EBP]]
    ensures Cycle(u).value.memory == u.memory && Cycle(u).value.freg == u.freg && Cycle(u).value.eip == At(u, qs, 1)
  {
    hide Cycle, EnterFrame, LeaveFrame, Handler, SlotsKept, OutsideSlots, Stored, Enter, FrameSize, Nesting;
    var s1, u1 := Started(s, ps, ENTER), Started(u, qs, LEAVE);
    PrefixedCycle(s, ps, ENTER);
    PrefixedCycle(u, qs, LEAVE);
    Handlers(s1);
    Handlers(u1);
    EnterOperands(s, ps);
    NestingBound(s, ps);
    var v, size, level := Skip(s1, 3), FrameSize(s, ps), Nesting(s, ps);
    EnterBuilds(v, size, level);
    LeaveUndoesEnter(v, size, level, u1);
    WrapAdd(u.eip + |qs|, 1);
  }
}
