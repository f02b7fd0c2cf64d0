/**
  The processor state, and the register, memory and stack helpers, as functions from state to
  state.  A C++ exception becomes a `Fault` that carries the state at the throw, because what an
  opcode did before it threw is not undone.
*/
module CpuState {
  import opened Words
  import opened FlatMemory
  import opened Arithmetic

  const EAX := 0
  const ECX := 1
  const EDX := 2
  const EBX := 3
  const ESP := 4
  const EBP := 5
  const ESI := 6
  const EDI := 7

  type RegisterIndex = i: nat | i < 8

  type Registers = r: seq<uint32> | |r| == 8 witness [0, 0, 0, 0, 0, 0, 0, 0]

  /** Why an instruction did not complete.  `Unmodelled` marks opcodes outside this model, and
      `EndlessPrefixes` a prefix chain as long as the address space. */
  datatype Cause = DivideError | UnknownOpcode | MemoryFault | Unmodelled | EndlessPrefixes

  datatype Cpu = Cpu(
    regs: Registers,
    eip: uint32,
    freg: Flags,
    operandSize16: bool,
    addressSize16: bool,
    stringCompares: bool,
    doStop: bool,
    beginEip: uint32,
    opbyte: uint8,
    gasUsed: int,
    gasLimit: int,
    memory: Memory)

  datatype Result<+T> = Ok(value: T) | Fault(at: Cpu, cause: Cause) {
    predicate IsFailure() {
      Fault?
    }

    function PropagateFailure<U>(): Result<U>
      requires Fault?
    {
      Fault(at, cause)
    }

    function Extract(): T
      requires Ok?
    {
      value
    }
  }

  type Step = Result<Cpu>

  // ----- Registers -----

  function Reg16(s: Cpu, i: RegisterIndex): uint16 { s.regs[i] % 0x1_0000 }

  function Reg32(s: Cpu, i: RegisterIndex): uint32 { s.regs[i] }

  /** The register at the operand size. */
  function Reg(s: Cpu, i: RegisterIndex): uint32 {
    if s.operandSize16 then Reg16(s, i) else Reg32(s, i)
  }

  /** `whole` with its low 16 bits replaced. */
  function LowHalf(whole: uint32, v: uint16): uint32 { whole - whole % 0x1_0000 + v }

  function SetReg32(s: Cpu, i: RegisterIndex, v: uint32): Cpu { s.(regs := s.regs[i := v]) }

  function SetReg16(s: Cpu, i: RegisterIndex, v: uint16): Cpu { s.(regs := s.regs[i := LowHalf(s.regs[i], v)]) }

  function SetReg(s: Cpu, i: RegisterIndex, v: uint32): Cpu {
    if s.operandSize16 then SetReg16(s, i, Wrap16(v)) else SetReg32(s, i, v)
  }

  function OperandSize(s: Cpu): nat { if s.operandSize16 then 2 else 4 }

  /** Truncates an instruction pointer to the operand size. */
  function W(s: Cpu, v: uint32): uint32 { if s.operandSize16 then Wrap16(v) else v }

  // ----- Memory -----

  lemma GetFits(m: Memory, a: int, n: nat)
    requires Mapped(m, a, n) && n <= 4
    ensures Get(m, a, n) < 0x1_0000_0000
  {
    GetBound(m, a, n);
    Pow256Values();
    assert Pow256(n) <= 0x1_0000_0000 by {
      assert Pow256(3) == 0x100 * Pow256(2);
    }
  }

  function Read(s: Cpu, a: uint32, n: nat): Result<uint32>
    requires n <= 4
  {
    if Mapped(s.memory, a, n) then
      GetFits(s.memory, a, n);
      Ok(Get(s.memory, a, n))
    else Fault(s, MemoryFault)
  }

  function Write(s: Cpu, a: uint32, n: nat, v: uint32): Step {
    if Writable(s.memory, a, n) then Ok(s.(memory := Put(s.memory, a, n, v))) else Fault(s, MemoryFault)
  }

  function ReadW(s: Cpu, a: uint32): Result<uint32> { Read(s, a, OperandSize(s)) }

  function WriteW(s: Cpu, a: uint32, v: uint32): Step { Write(s, a, OperandSize(s), v) }

  /** A fetch of `n` code bytes at `eip + index`. */
  function ReadCode(s: Cpu, index: int, n: nat): Result<uint32>
    requires n <= 4
  {
    Read(s, Wrap32(s.eip + index), n)
  }

  function ReadCode8(s: Cpu, index: int): Result<uint8> {
    var v :- ReadCode(s, index, 1);
    Ok(v % 0x100)
  }

  function ReadCodeW(s: Cpu, index: int): Result<uint32> { ReadCode(s, index, OperandSize(s)) }

  function Skip(s: Cpu, n: int): Cpu { s.(eip := Wrap32(s.eip + n)) }

  // ----- The stack -----

  function Push(s: Cpu, val: uint32): Step {
    if s.operandSize16 then
      var t := SetReg16(s, ESP, Wrap16(Reg16(s, ESP) - 2));
      Write(t, Reg16(t, ESP), 2, val)
    else
      var t := SetReg32(s, ESP, Wrap32(s.regs[ESP] as int - 4));
      Write(t, t.regs[ESP], 4, val)
  }

  datatype Popped = Popped(cpu: Cpu, value: uint32)

  function Pop(s: Cpu): Result<Popped> {
    if s.operandSize16 then
      var tmp :- Read(s, Reg16(s, ESP), 2);
      Ok(Popped(SetReg16(s, ESP, Wrap16(Reg16(s, ESP) + 2)), tmp))
    else
      var tmp :- Read(s, s.regs[ESP], 4);
      Ok(Popped(SetReg32(s, ESP, Wrap32(s.regs[ESP] as int + 4)), tmp))
  }

  // ----- Jumps and string pointers -----

  /** The signed reading of a `n`-valued offset. */
  function SignExtend(v: nat, n: nat): int { if v >= n / 2 then v - n else v }

  function JmpNear(s: Cpu, off: uint32, n: nat): Cpu {
    s.(eip := W(s, Wrap32(s.eip + SignExtend(off, n))))
  }

  function JmpNearW(s: Cpu, off: uint32): Cpu {
    if s.operandSize16 then JmpNear(s, Wrap16(off), 0x1_0000) else JmpNear(s, off, 0x1_0000_0000)
  }

  /** How far a string instruction moves its pointers. */
  function Stride(s: Cpu): int { if s.freg.df then 0 - OperandSize(s) else OperandSize(s) }

  /** Both string pointers move, whatever the instruction used. */
  function SetIndex(s: Cpu): Cpu {
    if s.operandSize16 then
      var t := SetReg16(s, ESI, Wrap16(Reg(s, ESI) + Stride(s)));
      SetReg16(t, EDI, Wrap16(Reg(t, EDI) + Stride(s)))
    else
      var t := SetReg32(s, ESI, Wrap32(s.regs[ESI] + Stride(s)));
      SetReg32(t, EDI, Wrap32(t.regs[EDI] + Stride(s)))
  }
}
