/**
  The instruction set: one function per opcode handler.  A handler starts with `eip` on its
  opcode byte and leaves it on the last byte of the instruction; `Cycle` steps past it.
*/
module Isa {
  import opened Words
  import opened Arithmetic
  import opened ArithmeticLaws
  import opened CpuState
  import opened ModRm

  // ----- vm/ops/store.cpp -----

  function PushR(s: Cpu, i: RegisterIndex): Step { Push(s, Reg(s, i)) }

  function PopR(s: Cpu, i: RegisterIndex): Step {
    var p :- Pop(s);
    Ok(SetReg(p.cpu, i, p.value))
  }

  function MovRImm(s: Cpu, i: RegisterIndex): Step {
    var v :- ReadCodeW(s, 1);
    Ok(Skip(SetReg(s, i, v), OperandSize(s)))
  }

  function Pusha(s: Cpu): Step {
    var tmp := Reg(s, ESP);
    var s1 :- PushR(s, EAX);
    var s2 :- PushR(s1, ECX);
    var s3 :- PushR(s2, EDX);
    var s4 :- PushR(s3, EBX);
    var s5 :- Push(s4, tmp);
    var s6 :- PushR(s5, EBP);
    var s7 :- PushR(s6, ESI);
    PushR(s7, EDI)
  }

  function Popa(s: Cpu): Step {
    var t :- PopPointers(s);
    PopOthers(SetReg(t, ESP, Wrap32(Reg(t, ESP) as int + OperandSize(s))))
  }

  /** The three registers above the skipped stack pointer. */
  function PopPointers(s: Cpu): Step {
    var s1 :- PopR(s, EDI);
    var s2 :- PopR(s1, ESI);
    PopR(s2, EBP)
  }

  function PopOthers(s: Cpu): Step {
    var s1 :- PopR(s, EBX);
    var s2 :- PopR(s1, EDX);
    var s3 :- PopR(s2, ECX);
    PopR(s3, EAX)
  }

  /** The frame-pointer pushes of ENTER, from round `i` up to the nesting level. */
  function EnterLoop(s: Cpu, i: nat, level: nat): Step
    decreases level - i
  {
    if i >= level then Ok(s)
    else
      var t := SetReg(s, EBP, Wrap32(Reg(s, EBP) as int - OperandSize(s)));
      var u :- PushR(t, EBP);
      EnterLoop(u, i + 1, level)
  }

  /** ENTER with its operands: save EBP, copy the display, set up the frame. */
  function EnterFrame(s: Cpu, size: uint16, level: nat): Step {
    var t :- PushR(s, EBP);
    var frameTemp := Reg(t, ESP);
    var u :- EnterLoop(t, 1, level);
    var v :- if level > 0 then Push(u, frameTemp) else Ok(u);
    var w := SetReg(v, EBP, frameTemp);
    Ok(SetReg(w, ESP, Wrap32(Reg(w, EBP) as int - size)))
  }

  function Enter(s: Cpu): Step {
    var size :- ReadCode(s, 1, 2);
    var t := Skip(s, 2);
    var nesting :- ReadCode8(t, 1);
    EnterFrame(Skip(t, 1), Wrap16(size), nesting % 32)
  }

  function LeaveFrame(s: Cpu): Step {
    PopR(SetReg(s, ESP, Reg(s, EBP)), EBP)
  }

  // ----- vm/ops/flow.cpp -----

  function JmpRelW(s: Cpu): Step {
    var rel :- ReadCodeW(s, 1);
    Ok(Skip(JmpNearW(Skip(s, OperandSize(s) + 1), rel), -1))
  }

  function CallRelW(s: Cpu): Step {
    var rel :- ReadCodeW(s, 1);
    var t := Skip(s, OperandSize(s) + 1);
    var u :- Push(t, t.eip);
    Ok(Skip(JmpNearW(u, rel), -1))
  }

  function Retn(s: Cpu): Step {
    var p :- Pop(s);
    Ok(Skip(p.cpu.(eip := p.value), -1))
  }

  /** The immediate is added to all of ESP at both operand sizes. */
  function RetnImm16(s: Cpu): Step {
    var imm :- ReadCode(s, 1, 2);
    var t :- Retn(s);
    Ok(SetReg32(t, ESP, Wrap32(t.regs[ESP] + imm)))
  }

  // ----- vm/ops/flags.cpp -----

  function JccRel8(s: Cpu, condition: nat): Step
    requires condition < 16
  {
    var rel :- ReadCode8(s, 1);
    if Jcc(condition, s.freg) then Ok(Skip(JmpNear(Skip(s, 2), rel, 0x100), -1)) else Ok(Skip(s, 1))
  }

  function JccRelW(s: Cpu, condition: nat): Step
    requires condition < 16
  {
    var rel :- ReadCodeW(s, 1);
    if Jcc(condition, s.freg) then Ok(Skip(JmpNearW(Skip(s, OperandSize(s) + 1), rel), -1))
    else Ok(Skip(s, OperandSize(s)))
  }

  // ----- vm/ops/maths.cpp, vm/ops/groups.cpp -----

  function IncR(s: Cpu, i: RegisterIndex): Step {
    var r := Inc(s.freg, Reg(s, i), s.operandSize16);
    Ok(SetReg(s.(freg := r.freg), i, r.value))
  }

  function DecR(s: Cpu, i: RegisterIndex): Step {
    var r := Dec(s.freg, Reg(s, i), s.operandSize16);
    Ok(SetReg(s.(freg := r.freg), i, r.value))
  }

  /** The two-operand instructions that are modelled. */
  datatype AluOp = AddOp | AdcOp | SubOp | CmpOp

  function Alu(op: AluOp, f: Flags, a: uint32, b: uint32, size16: bool): Outcome {
    match op
    case AddOp => Add(f, a, b, size16)
    case AdcOp => Adc(f, a, b, size16)
    case _ => Sub(f, a, b, size16)
  }

  /** `op r, r/m`. */
  function AluRRm(s: Cpu, op: AluOp): Step {
    var d :- Decode(s);
    Leave(AluRRmBody(d.cpu, d.rm, op), d.rm)
  }

  function AluRRmBody(s: Cpu, m: Operand, op: AluOp): Step {
    var v :- RmRead(s, m);
    var r := Alu(op, s.freg, Reg(s, m.extra), v, s.operandSize16);
    var t := s.(freg := r.freg);
    Ok(if op == CmpOp then t else SetReg(t, m.extra, r.value))
  }

  /** `op r/m, imm`: groups 81 (immediate at operand size) and 83 (sign-extended byte). */
  function AluGroup(s: Cpu, immSize: nat): Step
    requires immSize in {1, 2, 4}
  {
    var d :- Decode(s);
    Leave(AluGroupBody(d.cpu, d.rm, immSize), d.rm)
  }

  function AluGroupBody(s: Cpu, m: Operand, immSize: nat): Step
    requires immSize in {1, 2, 4}
  {
    match m.extra
    case 0 => AluRmImm(s, m, AddOp, immSize)
    case 2 => AluRmImm(s, m, AdcOp, immSize)
    case 5 => AluRmImm(s, m, SubOp, immSize)
    case 7 => AluRmImm(s, m, CmpOp, immSize)
    case _ => Fault(s, Unmodelled)
  }

  function AluRmImm(s: Cpu, m: Operand, op: AluOp, immSize: nat): Step
    requires immSize in {1, 2, 4}
  {
    var v :- RmRead(s, m);
    var imm :- RmImmediate(s, m, immSize);
    var operand := if immSize == 1 then Wrap32(SignExtend(imm, 0x100)) else imm;
    var r := Alu(op, s.freg, v, operand, s.operandSize16);
    var t := s.(freg := r.freg);
    var u :- if op == CmpOp then Ok(t) else RmWrite(t, m, r.value);
    Ok(Skip(u, immSize))
  }

  /** Group F7: signed multiplication and division of the accumulator pair. */
  function GroupF7(s: Cpu): Step {
    var d :- Decode(s);
    Leave(GroupF7Body(d.cpu, d.rm), d.rm)
  }

  function GroupF7Body(s: Cpu, m: Operand): Step {
    match m.extra
    case 5 => ImulRm(s, m)
    case 7 => IdivRm(s, m)
    case _ => Fault(s, Unmodelled)
  }

  function ImulRm(s: Cpu, m: Operand): Step {
    var v :- RmRead(s, m);
    var (high, low, overflow) := Imul(Reg(s, EAX), Truncate(v, s.operandSize16), s.operandSize16);
    var t := s.(freg := s.freg.(of := overflow, cf := overflow));
    Ok(SetReg(SetReg(t, EDX, high), EAX, low))
  }

  function IdivRm(s: Cpu, m: Operand): Step {
    var v :- RmRead(s, m);
    match Idiv(Reg(s, EDX), Reg(s, EAX), Truncate(v, s.operandSize16), s.operandSize16)
    case DivideFault => Fault(s, DivideError)
    case Divided(q, r) => Ok(SetReg(SetReg(s, EDX, r), EAX, q))
  }

  /** Group FF.  CALL and JMP keep the destructor from moving `eip`. */
  function GroupFF(s: Cpu): Step {
    var d :- Decode(s);
    if d.rm.extra == 2 then CallRm(d.cpu, d.rm)
    else if d.rm.extra == 4 then JmpRm(d.cpu, d.rm)
    else Leave(GroupFFBody(d.cpu, d.rm), d.rm)
  }

  function GroupFFBody(s: Cpu, m: Operand): Step {
    match m.extra
    case 0 => IncRm(s, m)
    case 1 => DecRm(s, m)
    case 6 =>
      var v :- RmRead(s, m);
      Push(s, v)
    case 7 => Fault(Skip(s, -1), UnknownOpcode)
    case _ => Fault(s, Unmodelled)
  }

  /** CF is put aside before the operand is read and comes back after it is written: a refused access leaves
      the flags as they are in between. */
  function IncRm(s: Cpu, m: Operand): Step {
    var t := s.(freg := s.freg.(r0 := s.freg.cf));
    var v :- RmRead(t, m);
    var r := Add(t.freg, v, 1, t.operandSize16);
    var u :- RmWrite(t.(freg := r.freg), m, r.value);
    Ok(u.(freg := u.freg.(cf := u.freg.r0)))
  }

  function DecRm(s: Cpu, m: Operand): Step {
    var t := s.(freg := s.freg.(r0 := s.freg.cf));
    var v :- RmRead(t, m);
    var r := Sub(t.freg, v, 1, t.operandSize16);
    var u :- RmWrite(t.(freg := r.freg), m, r.value);
    Ok(u.(freg := u.freg.(cf := u.freg.r0)))
  }

  /** The return address is pushed before the operand is read. */
  function CallRm(s: Cpu, m: Operand): Step {
    var t :- Push(s, Wrap32(s.eip + Length(s, m)));
    var target :- RmRead(t, m);
    Ok(Skip(t.(eip := target), -1))
  }

  function JmpRm(s: Cpu, m: Operand): Step {
    var target :- RmRead(s, m);
    Ok(Skip(s.(eip := target), -1))
  }

  // ----- vm/ops/strings.cpp -----

  function MovsW(s: Cpu): Step {
    var v :- ReadW(s, Reg(s, ESI));
    var t :- WriteW(s, Reg(s, EDI), v);
    Ok(SetIndex(t))
  }

  function StosW(s: Cpu): Step {
    var t :- WriteW(s, Reg(s, EDI), Reg(s, EAX));
    Ok(SetIndex(t))
  }

  /** A comparing string instruction tells REP about itself when the byte before it is a REP prefix. */
  function MarkCompare(s: Cpu): Step {
    var prev :- ReadCode8(s, -1);
    Ok(if prev == 0xF3 || prev == 0xF2 then s.(stringCompares := true) else s)
  }

  function CmpsW(s: Cpu): Step {
    var t :- MarkCompare(s);
    var a :- ReadW(t, Reg(t, ESI));
    var b :- ReadW(t, Reg(t, EDI));
    Ok(SetIndex(t.(freg := Sub(t.freg, a, b, t.operandSize16).freg)))
  }

  function ScasW(s: Cpu): Step {
    var t :- MarkCompare(s);
    var b :- ReadW(t, Reg(t, EDI));
    Ok(SetIndex(t.(freg := Sub(t.freg, Reg(t, EAX), b, t.operandSize16).freg)))
  }

  /** The string instructions at operand size; the byte, port and LODS forms are not modelled. */
  function StringOp(s: Cpu, op: uint8): Step {
    match op
    case 0xA5 => MovsW(s)
    case 0xA7 => CmpsW(s)
    case 0xAB => StosW(s)
    case 0xAF => ScasW(s)
    case _ => Fault(s, Unmodelled)
  }

  // ----- vm/ops/etc.cpp: REP -----

  predicate IsStringOpcode(op: uint8) {
    op in {0x6C, 0x6D, 0x6E, 0x6F, 0xA4, 0xA5, 0xA6, 0xA7, 0xAA, 0xAB, 0xAC, 0xAD, 0xAE, 0xAF}
  }

  function Counter(s: Cpu): uint32 { if s.addressSize16 then Reg16(s, ECX) else s.regs[ECX] }

  function CountDown(s: Cpu): Cpu {
    if s.addressSize16 then SetReg16(s, ECX, Wrap16(Reg16(s, ECX) - 1))
    else SetReg32(s, ECX, Wrap32(s.regs[ECX] as int - 1))
  }

  /** One iteration of a repeated string instruction: `eip` goes back to before the whole instruction,
      so that the next cycle starts it again, unless a comparison ends the search. */
  function Rep(s: Cpu): Step {
    var op :- ReadCode8(s, 1);
    var t := s.(opbyte := op);
    if op == 0xC3 then Ok(t)
    else if !IsStringOpcode(op) then Fault(Skip(t, 1), UnknownOpcode)
    else if Counter(t) == 0 then Ok(Skip(t, 1))
    else RepIteration(t, s.opbyte, op)
  }

  function RepIteration(t: Cpu, repop: uint8, op: uint8): Step {
    var u :- StringOp(Skip(t, 1), op);
    Ok(RepNext(CountDown(u), repop, t.eip))
  }

  function RepNext(v: Cpu, repop: uint8, repEip: uint32): Cpu {
    if v.stringCompares && v.freg.zf == (repop == 0xF2) then
      v.(stringCompares := false, eip := Wrap32(repEip + 1))
    else
      v.(stringCompares := false, eip := Wrap32(v.beginEip as int - 1))
  }

  // ----- The opcode tables -----

  /** The one-byte opcodes that are not prefixes. */
  function Basic(s: Cpu): Step {
    var op := s.opbyte;
    if 0x40 <= op < 0x48 then IncR(s, op - 0x40)
    else if 0x48 <= op < 0x50 then DecR(s, op - 0x48)
    else if 0x50 <= op < 0x58 then PushR(s, op - 0x50)
    else if 0x58 <= op < 0x60 then PopR(s, op - 0x58)
    else if 0x70 <= op < 0x80 then JccRel8(s, op - 0x70)
    else if 0xB8 <= op < 0xC0 then MovRImm(s, op - 0xB8)
    else
      match op
      case 0x03 => AluRRm(s, AddOp)
      case 0x13 => AluRRm(s, AdcOp)
      case 0x2B => AluRRm(s, SubOp)
      case 0x3B => AluRRm(s, CmpOp)
      case 0x60 => Pusha(s)
      case 0x61 => Popa(s)
      case 0x81 => AluGroup(s, OperandSize(s))
      case 0x83 => AluGroup(s, 1)
      case 0x90 => Ok(s)
      case 0xA5 => MovsW(s)
      case 0xA7 => CmpsW(s)
      case 0xAB => StosW(s)
      case 0xAF => ScasW(s)
      case 0xC2 => RetnImm16(s)
      case 0xC3 => Retn(s)
      case 0xC8 => Enter(s)
      case 0xC9 => LeaveFrame(s)
      case 0xE8 => CallRelW(s)
      case 0xE9 => JmpRelW(s)
      case 0xF2 => Rep(s)
      case 0xF3 => Rep(s)
      case 0xF7 => GroupF7(s)
      case 0xFF => GroupFF(s)
      case _ => Fault(s, Unmodelled)
  }

  /** The two-byte opcodes; `eip` is on the second byte. */
  function Extended(s: Cpu): Step {
    if 0x80 <= s.opbyte < 0x90 then JccRelW(s, s.opbyte - 0x80) else Fault(s, Unmodelled)
  }

  function TwoByte(s: Cpu): Step {
    var op :- ReadCode8(Skip(s, 1), 0);
    Extended(Skip(s, 1).(opbyte := op))
  }

  /** More prefixes than there are addresses: the chain never ends. */
  const ADDRESSES := 0x1_0000_0000

  /** The opcode table with the size prefixes, which run the next opcode inside their own handler and
      clear their flag when it returns. */
  function Dispatch(s: Cpu, fuel: nat): Step
    decreases fuel, 1
  {
    match s.opbyte
    case 0x66 => OperandOverride(s, fuel)
    case 0x67 => AddressOverride(s, fuel)
    case 0x0F => TwoByte(s)
    case _ => Basic(s)
  }

  function OperandOverride(s: Cpu, fuel: nat): Step
    decreases fuel, 0
  {
    var t := Skip(s, 1).(operandSize16 := true);
    var op :- ReadCode8(t, 0);
    if fuel == 0 then Fault(t, EndlessPrefixes)
    else
      var u :- Dispatch(t.(opbyte := op), fuel - 1);
      Ok(u.(operandSize16 := false))
  }

  function AddressOverride(s: Cpu, fuel: nat): Step
    decreases fuel, 0
  {
    var t := Skip(s, 1).(addressSize16 := true);
    var op :- ReadCode8(t, 0);
    if fuel == 0 then Fault(t, EndlessPrefixes)
    else
      var u :- Dispatch(t.(opbyte := op), fuel - 1);
      Ok(u.(addressSize16 := false))
  }

  /** One instruction. */
  function Cycle(s: Cpu): Step {
    var op :- ReadCode8(s.(beginEip := s.eip), 0);
    var t :- Dispatch(s.(beginEip := s.eip, opbyte := op), ADDRESSES);
    Ok(Skip(t, 1).(gasUsed := t.gasUsed + 1))
  }

  predicate GasExceeded(s: Cpu) { s.gasUsed > s.gasLimit }

  /** Up to `n` instructions, fewer when the gas runs out or a stop was requested. */
  function Exec(s: Cpu, n: int): Step
    decreases n
  {
    if n <= 0 || (s.gasLimit != 0 && GasExceeded(s)) then Ok(s)
    else
      var t :- Cycle(s);
      if t.doStop then Ok(t.(doStop := false)) else Exec(t, n - 1)
  }
}
