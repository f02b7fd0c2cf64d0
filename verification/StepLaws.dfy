/**
  What every instruction keeps, completed or faulting: gas accounting, the stop request, the
  start of the instruction, which addresses exist, which of them are read-only and what those hold,
  and, when it completes, the size flags.
*/
module StepLaws {
  import opened Words
  import opened FlatMemory
  import opened Arithmetic
  import opened ArithmeticLaws
  import opened CpuState
  import opened ModRm
  import opened Isa

  /** What read-only devices hold. */
  ghost function RomBytes(m: Memory): map<int, uint8> { map x | x in m.bytes && x in m.rom :: m.bytes[x] }

  ghost predicate SameShape(m: Memory, m': Memory) {
    m'.bytes.Keys == m.bytes.Keys && m'.rom == m.rom && RomBytes(m') == RomBytes(m)
  }

  lemma PutKeepsRom(m: Memory, a: int, n: nat, v: nat)
    requires Writable(m, a, n)
    ensures SameShape(m, Put(m, a, n, v))
  {
    hide Put;
    var m' := Put(m, a, n, v);
    assert forall x :: x in m.bytes.Keys <==> x in m'.bytes.Keys;
  }

  ghost predicate Keeps(s: Cpu, t: Cpu) {
    && t.gasUsed == s.gasUsed && t.gasLimit == s.gasLimit && t.doStop == s.doStop
    && t.beginEip == s.beginEip
    && SameShape(s.memory, t.memory)
  }

  ghost predicate SameSizes(s: Cpu, t: Cpu) {
    t.operandSize16 == s.operandSize16 && t.addressSize16 == s.addressSize16
  }

  /** `r` is how a handler that started in `s` may end. */
  ghost predicate Handled(s: Cpu, r: Step) {
    match r
    case Ok(t) => Keeps(s, t) && SameSizes(s, t)
    case Fault(t, _) => Keeps(s, t)
  }

  lemma PushHandled(s: Cpu, v: uint32)
    ensures Handled(s, Push(s, v))
  {
    hide Put, Writable, RomBytes, LowHalf;
    forall a: uint32, n: nat | Writable(s.memory, a, n)
      ensures SameShape(s.memory, Put(s.memory, a, n, v))
    {
      PutKeepsRom(s.memory, a, n, v);
    }
  }

  lemma PopRHandled(s: Cpu, i: RegisterIndex)
    ensures Handled(s, PopR(s, i))
  {
  }

  lemma RmReadHandled(s: Cpu, m: Operand)
    ensures RmRead(s, m).Fault? ==> RmRead(s, m).at == s
  {
  }

  lemma RmWriteHandled(s: Cpu, m: Operand, v: uint32)
    ensures Handled(s, RmWrite(s, m, v))
  {
    hide Address, WriteW;
    if m.mod != 3 && Address(s, m).Ok? {
      WriteHandled(s, Address(s, m).value, v);
    } else {
      AddressHandled(s, m);
    }
  }

  lemma AddressHandled(s: Cpu, m: Operand)
    ensures Address(s, m).Fault? ==> Address(s, m).at == s
  {
  }

  lemma DecodeHandled(s: Cpu)
    ensures
      match Decode(s)
      case Ok(d) => Keeps(s, d.cpu) && SameSizes(s, d.cpu)
      case Fault(t, _) => Keeps(s, t)
  {
  }

  lemma LeaveHandled(s: Cpu, t: Cpu, r: Step, m: Operand)
    requires Keeps(s, t) && SameSizes(s, t) && Handled(t, r)
    ensures Handled(s, Leave(r, m))
  {
  }

  lemma PushaHandled(s: Cpu)
    ensures Handled(s, Pusha(s))
  {
    hide Push, Reg;
    forall t: Cpu, v: uint32
      ensures Handled(t, Push(t, v))
    {
      PushHandled(t, v);
    }
  }

  lemma PopaHandled(s: Cpu)
    ensures Handled(s, Popa(s))
  {
    hide PopR, Reg, RomBytes;
    forall t: Cpu, i: RegisterIndex
      ensures Handled(t, PopR(t, i))
    {
      PopRHandled(t, i);
    }
  }

  lemma {:induction false} EnterLoopHandled(s: Cpu, i: nat, level: nat)
    ensures Handled(s, EnterLoop(s, i, level))
    decreases level - i
  {
    hide Push, Reg;
    if i < level {
      var t := SetReg(s, EBP, Wrap32(Reg(s, EBP) as int - OperandSize(s)));
      PushHandled(t, Reg(t, EBP));
      if PushR(t, EBP).Ok? {
        EnterLoopHandled(PushR(t, EBP).value, i + 1, level);
      }
    }
  }

  lemma EnterFrameHandled(s: Cpu, size: uint16, level: nat)
    ensures Handled(s, EnterFrame(s, size, level))
  {
    hide Push, Reg, EnterLoop;
    PushHandled(s, Reg(s, EBP));
    if PushR(s, EBP).Ok? {
      var t := PushR(s, EBP).value;
      EnterLoopHandled(t, 1, level);
      if EnterLoop(t, 1, level).Ok? {
        PushHandled(EnterLoop(t, 1, level).value, Reg(t, ESP));
      }
    }
  }

  lemma EnterHandled(s: Cpu)
    ensures Handled(s, Enter(s))
  {
    hide EnterFrame;
    forall t: Cpu, size: uint16, level: nat
      ensures Handled(t, EnterFrame(t, size, level))
    {
      EnterFrameHandled(t, size, level);
    }
  }

  lemma LeaveFrameHandled(s: Cpu)
    ensures Handled(s, LeaveFrame(s))
  {
    hide PopR;
    PopRHandled(SetReg(s, ESP, Reg(s, EBP)), EBP);
  }

  lemma CallHandled(s: Cpu)
    ensures Handled(s, CallRelW(s)) && Handled(s, JmpRelW(s))
  {
    hide Push;
    var t := Skip(s, OperandSize(s) + 1);
    PushHandled(t, t.eip);
  }

  lemma RetHandled(s: Cpu)
    ensures Handled(s, Retn(s)) && Handled(s, RetnImm16(s))
  {
  }

  lemma Jcc8Handled(s: Cpu, condition: nat)
    requires condition < 16
    ensures Handled(s, JccRel8(s, condition))
  {
    hide Jcc;
  }

  lemma JccWHandled(s: Cpu, condition: nat)
    requires condition < 16
    ensures Handled(s, JccRelW(s, condition))
  {
    hide Jcc;
  }

  lemma RegisterHandled(s: Cpu, i: RegisterIndex)
    ensures Handled(s, IncR(s, i)) && Handled(s, DecR(s, i)) && Handled(s, MovRImm(s, i))
  {
    hide Inc, Dec;
  }

  lemma AluHandled(s: Cpu, op: AluOp, immSize: nat)
    requires immSize in {1, 2, 4}
    ensures Handled(s, AluRRm(s, op)) && Handled(s, AluGroup(s, immSize))
  {
    hide Decode, RmRead, RmWrite, Alu, Leave;
    DecodeHandled(s);
    if Decode(s).Ok? {
      var t, m := Decode(s).value.cpu, Decode(s).value.rm;
      AluRRmBodyHandled(t, m, op);
      LeaveHandled(s, t, AluRRmBody(t, m, op), m);
      AluGroupBodyHandled(t, m, immSize);
      LeaveHandled(s, t, AluGroupBody(t, m, immSize), m);
    }
  }

  lemma AluRRmBodyHandled(s: Cpu, m: Operand, op: AluOp)
    ensures Handled(s, AluRRmBody(s, m, op))
  {
    hide RmRead, Alu;
    RmReadHandled(s, m);
  }

  lemma AluGroupBodyHandled(s: Cpu, m: Operand, immSize: nat)
    requires immSize in {1, 2, 4}
    ensures Handled(s, AluGroupBody(s, m, immSize))
  {
    hide AluRmImm;
    forall op: AluOp
      ensures Handled(s, AluRmImm(s, m, op, immSize))
    {
      AluRmImmHandled(s, m, op, immSize);
    }
  }

  lemma AluRmImmHandled(s: Cpu, m: Operand, op: AluOp, immSize: nat)
    requires immSize in {1, 2, 4}
    ensures Handled(s, AluRmImm(s, m, op, immSize))
  {
    hide RmRead, RmWrite, Alu, RmImmediate;
    RmReadHandled(s, m);
    if RmRead(s, m).Ok? && RmImmediate(s, m, immSize).Ok? {
      var imm := RmImmediate(s, m, immSize).value;
      var operand := if immSize == 1 then Wrap32(SignExtend(imm, 0x100)) else imm;
      var r := Alu(op, s.freg, RmRead(s, m).value, operand, s.operandSize16);
      RmWriteHandled(s.(freg := r.freg), m, r.value);
    } else {
      RmImmediateHandled(s, m, immSize);
    }
  }

  lemma RmImmediateHandled(s: Cpu, m: Operand, n: nat)
    requires n <= 4
    ensures RmImmediate(s, m, n).Fault? ==> RmImmediate(s, m, n).at == s
  {
  }

  lemma GroupF7Handled(s: Cpu)
    ensures Handled(s, GroupF7(s))
  {
    hide Decode, Leave, ImulRm, IdivRm;
    DecodeHandled(s);
    if Decode(s).Ok? {
      var t, m := Decode(s).value.cpu, Decode(s).value.rm;
      MulDivHandled(t, m);
      LeaveHandled(s, t, GroupF7Body(t, m), m);
    }
  }

  lemma MulDivHandled(s: Cpu, m: Operand)
    ensures Handled(s, ImulRm(s, m)) && Handled(s, IdivRm(s, m))
  {
    hide RmRead, Imul, Idiv;
    RmReadHandled(s, m);
  }

  lemma IncDecRmHandled(s: Cpu, m: Operand)
    ensures Handled(s, IncRm(s, m)) && Handled(s, DecRm(s, m))
  {
    hide RmRead, RmWrite, Add, Sub;
    var t := s.(freg := s.freg.(r0 := s.freg.cf));
    RmReadHandled(t, m);
    forall f: Flags, v: uint32
      ensures Handled(t.(freg := f), RmWrite(t.(freg := f), m, v))
    {
      RmWriteHandled(t.(freg := f), m, v);
    }
  }

  lemma JumpRmHandled(s: Cpu, m: Operand)
    ensures Handled(s, CallRm(s, m)) && Handled(s, JmpRm(s, m))
  {
    hide RmRead, Push, Length;
    RmReadHandled(s, m);
    var r := Push(s, Wrap32(s.eip + Length(s, m)));
    PushHandled(s, Wrap32(s.eip + Length(s, m)));
    if r.Ok? {
      RmReadHandled(r.value, m);
    }
  }

  lemma GroupFFHandled(s: Cpu)
    ensures Handled(s, GroupFF(s))
  {
    hide Decode, Leave, IncRm, DecRm, CallRm, JmpRm, RmRead, Push, RomBytes;
    DecodeHandled(s);
    if Decode(s).Ok? {
      var t, m := Decode(s).value.cpu, Decode(s).value.rm;
      IncDecRmHandled(t, m);
      JumpRmHandled(t, m);
      RmReadHandled(t, m);
      if RmRead(t, m).Ok? {
        PushHandled(t, RmRead(t, m).value);
      }
      LeaveHandled(s, t, GroupFFBody(t, m), m);
    }
  }

  lemma SetIndexHandled(s: Cpu)
    ensures Handled(s, Ok(SetIndex(s)))
  {
    hide LowHalf;
  }

  lemma WriteHandled(s: Cpu, a: uint32, v: uint32)
    ensures Handled(s, WriteW(s, a, v))
  {
    hide Put, Writable, RomBytes;
    if Writable(s.memory, a, OperandSize(s)) {
      PutKeepsRom(s.memory, a, OperandSize(s), v);
    }
  }

  lemma CopyHandled(s: Cpu)
    ensures Handled(s, MovsW(s)) && Handled(s, StosW(s))
  {
    hide Reg, WriteW, SetIndex;
    forall a: uint32, v: uint32
      ensures Handled(s, WriteW(s, a, v))
    {
      WriteHandled(s, a, v);
    }
    forall t: Cpu
      ensures Handled(t, Ok(SetIndex(t)))
    {
      SetIndexHandled(t);
    }
  }

  lemma MarkCompareHandled(s: Cpu)
    ensures Handled(s, MarkCompare(s))
  {
  }

  lemma CmpsHandled(s: Cpu)
    ensures Handled(s, CmpsW(s))
  {
    hide MarkCompare, Reg, Sub, SetIndex;
    MarkCompareHandled(s);
    forall t: Cpu
      ensures Handled(t, Ok(SetIndex(t)))
    {
      SetIndexHandled(t);
    }
  }

  lemma ScasHandled(s: Cpu)
    ensures Handled(s, ScasW(s))
  {
    hide MarkCompare, Reg, Sub, SetIndex;
    MarkCompareHandled(s);
    forall t: Cpu
      ensures Handled(t, Ok(SetIndex(t)))
    {
      SetIndexHandled(t);
    }
  }

  lemma StringOpHandled(s: Cpu, op: uint8)
    ensures Handled(s, StringOp(s, op))
  {
    hide MovsW, StosW, CmpsW, ScasW;
    CopyHandled(s);
    CmpsHandled(s);
    ScasHandled(s);
  }

  lemma RepHandled(s: Cpu)
    ensures Handled(s, Rep(s))
  {
    hide StringOp;
    var r := ReadCode8(s, 1);
    if r.Ok? {
      var t := s.(opbyte := r.value);
      StringOpHandled(Skip(t, 1), r.value);
    }
  }

  lemma StayHandled(s: Cpu)
    ensures Handled(s, Ok(s)) && forall cause :: Handled(s, Fault(s, cause))
  {
  }

  lemma BasicHandled(s: Cpu)
    ensures Handled(s, Basic(s))
  {
    hide Push, PopR, IncR, DecR, MovRImm, Pusha, Popa, Enter, LeaveFrame, CallRelW, JmpRelW, Retn, RetnImm16, JccRel8;
    hide AluRRm, AluGroup, GroupF7, GroupFF, MovsW, StosW, CmpsW, ScasW, Rep, Handled, Reg;
    StayHandled(s);
    forall i: RegisterIndex
      ensures Handled(s, PushR(s, i)) && Handled(s, PopR(s, i))
      ensures Handled(s, IncR(s, i)) && Handled(s, DecR(s, i)) && Handled(s, MovRImm(s, i))
    {
      PushHandled(s, Reg(s, i));
      PopRHandled(s, i);
      RegisterHandled(s, i);
    }
    PushaHandled(s);
    PopaHandled(s);
    EnterHandled(s);
    LeaveFrameHandled(s);
    CallHandled(s);
    RetHandled(s);
    forall op: AluOp
      ensures Handled(s, AluRRm(s, op))
    {
      AluHandled(s, op, 1);
    }
    AluHandled(s, AddOp, 1);
    AluHandled(s, AddOp, OperandSize(s));
    GroupF7Handled(s);
    GroupFFHandled(s);
    CopyHandled(s);
    CmpsHandled(s);
    ScasHandled(s);
    RepHandled(s);
    forall condition: nat | condition < 16
      ensures Handled(s, JccRel8(s, condition))
    {
      Jcc8Handled(s, condition);
    }
  }

  lemma TwoByteHandled(s: Cpu)
    ensures Handled(s, TwoByte(s))
  {
    hide JccRelW;
    forall t: Cpu, condition: nat | condition < 16
      ensures Handled(t, JccRelW(t, condition))
    {
      JccWHandled(t, condition);
    }
  }
}
