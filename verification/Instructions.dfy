/**
  Whole instructions: how a cycle ends whose handler is known, with any size prefixes.  The laws of single
  instructions state the next state by the bytes of the instruction, the registers and memory, not by the
  handlers.
*/
module Instructions {
  import opened Words
  import opened FlatMemory
  import opened Arithmetic
  import opened CpuState
  import opened Isa
  import opened PrefixChains
  import opened Pointers
  import opened StackRuns

  /** Operands and pushed words have 16 bits. */
  predicate Narrow(ps: seq<uint8>) { OPERAND_SIZE in ps }

  function Size(ps: seq<uint8>): (n: nat)
    ensures n == 2 || n == 4
  {
    SlotSize(Narrow(ps))
  }

  /** The address `n` bytes after the opcode of the instruction. */
  ghost function At(s: Cpu, ps: seq<uint8>, n: int): uint32 { Wrap32(s.eip + |ps| + n) }

  /** The state after an instruction that ends `n` bytes after the start of its opcode `op`, apart from what else
      it does. */
  ghost function Next(s: Cpu, ps: seq<uint8>, op: uint8, n: int): Cpu {
    s.(eip := At(s, ps, n), beginEip := s.eip, opbyte := op, gasUsed := s.gasUsed + 1)
  }

  /** A register at the operand size. */
  ghost function RegisterValue(s: Cpu, ps: seq<uint8>, i: RegisterIndex): uint32 { Pointer(s.regs[i], Narrow(ps)) }

  /** The word at `a`, if it is mapped. */
  ghost function WordAt(m: Memory, a: uint32, n: nat): uint32
    requires n <= 4 && Mapped(m, a, n)
  {
    GetFits(m, a, n);
    Get(m, a, n)
  }

  /** What `u` has that the rest of the cycle leaves alone. */
  ghost function Carried(t: Cpu, u: Cpu): Cpu {
    t.(regs := u.regs, memory := u.memory, freg := u.freg, stringCompares := u.stringCompares, opbyte := u.opbyte)
  }

  /** A handler that leaves `eip` `n - 1` bytes after the opcode ends its instruction `n` bytes after it. */
  lemma Ends(s: Cpu, ps: seq<uint8>, op: uint8, n: int, u: Cpu)
    requires Prefixed(s, ps, op) && op != 0x0F && Basic(Started(s, ps, op)) == Ok(u)
    requires u == Carried(Skip(Started(s, ps, op), n - 1), u)
    ensures Cycle(s) == Ok(Carried(Next(s, ps, op, n), u))
  {
    hide Basic, TwoByte, Cycle;
    PrefixedCycle(s, ps, op);
    WrapAdd(s.eip + |ps|, n - 1);
    WrapAdd(s.eip + |ps| + n - 1, 1);
  }

  /** An instruction whose handler faults. */
  lemma Faults(s: Cpu, ps: seq<uint8>, op: uint8, u: Cpu, cause: Cause)
    requires Prefixed(s, ps, op) && op != 0x0F && Basic(Started(s, ps, op)) == Fault(u, cause)
    ensures Cycle(s) == Fault(u, cause)
  {
    hide Basic, TwoByte, Cycle;
    PrefixedCycle(s, ps, op);
  }

  lemma RegIsValue(s: Cpu, ps: seq<uint8>, op: uint8, i: RegisterIndex)
    ensures Reg(Started(s, ps, op), i) == RegisterValue(s, ps, i)
  {
  }

  /** A handler that leaves `eip` one before `a` sends the processor to `a`. */
  lemma GoesTo(s: Cpu, ps: seq<uint8>, op: uint8, u: Cpu, a: uint32)
    requires Prefixed(s, ps, op) && op != 0x0F && Basic(Started(s, ps, op)) == Ok(u)
    requires u == Carried(Started(s, ps, op), u).(eip := Wrap32(a as int - 1))
    ensures Cycle(s) == Ok(Carried(Next(s, ps, op, 0), u).(eip := a))
  {
    hide Basic, TwoByte, Cycle;
    PrefixedCycle(s, ps, op);
    WrapAdd(a as int - 1, 1);
  }

  lemma WordBound(m: Memory, a: uint32, low: bool)
    requires Mapped(m, a, SlotSize(low))
    ensures WordAt(m, a, SlotSize(low)) < Modulus(low)
  {
    GetBound(m, a, SlotSize(low));
    Pow256Values();
  }

  /** A near jump adds the signed displacement, and keeps the low half at 16 bits. */
  lemma JumpLands(t: Cpu, rel: uint32)
    requires rel < Modulus(t.operandSize16)
    ensures
      var a := Truncate(t.eip + SignExtend(rel, Modulus(t.operandSize16)), t.operandSize16);
      JmpNearW(t, rel) == t.(eip := a)
  {
    hide SignExtend;
    if t.operandSize16 {
      NarrowTwice(t.eip + SignExtend(rel, 0x1_0000));
    }
  }

  /** A code fetch at `At(s, ps, i)`. */
  lemma FetchesAt(s: Cpu, ps: seq<uint8>, op: uint8, i: nat, n: nat)
    requires 0 < n <= 4
    ensures Mapped(s.memory, At(s, ps, i), n) ==> ReadCode(Started(s, ps, op), i, n) == Ok(WordAt(s.memory, At(s, ps, i), n))
    ensures !Mapped(s.memory, At(s, ps, i), n) ==> ReadCode(Started(s, ps, op), i, n) == Fault(Started(s, ps, op), MemoryFault)
  {
    hide Mapped, Get;
    WrapAdd(s.eip + |ps|, i);
  }

  lemma FetchesWord(s: Cpu, ps: seq<uint8>, op: uint8)
    requires Mapped(s.memory, At(s, ps, 1), Size(ps))
    ensures ReadCodeW(Started(s, ps, op), 1) == Ok(WordAt(s.memory, At(s, ps, 1), Size(ps)))
  {
    hide Mapped, Get, ReadCode;
    FetchesAt(s, ps, op, 1, Size(ps));
  }
}
