/** The instructions of the stack one by one, with any size prefixes. */
module StackInstructions {
  import opened Words
  import opened FlatMemory
  import opened Arithmetic
  import opened CpuState
  import opened Isa
  import opened PrefixChains
  import opened Pointers
  import opened StackRuns
  import opened Instructions

  /** Where a push puts its word. */
  ghost function Below(s: Cpu, ps: seq<uint8>): uint32 { Slot(s.regs[ESP], 1, Narrow(ps)) }

  /** Where a pop finds its word. */
  ghost function Top(s: Cpu, ps: seq<uint8>): uint32 { Pointer(s.regs[ESP], Narrow(ps)) }

  /** ESP `n` words further. */
  ghost function Moved(s: Cpu, ps: seq<uint8>, n: int): uint32 { Bump(s.regs[ESP], n * Size(ps), Narrow(ps)) }

  /** `t` with `v` pushed: the stack pointer of `s` one word down and `v` there. */
  ghost function WithPushed(s: Cpu, ps: seq<uint8>, t: Cpu, v: uint32): Cpu
    requires Writable(s.memory, Below(s, ps), Size(ps))
  {
    t.(regs := s.regs[ESP := Moved(s, ps, -1)], memory := Put(s.memory, Below(s, ps), Size(ps), v))
  }

  /** A push in a handler that has changed neither ESP nor memory. */
  lemma HandlerPushes(s: Cpu, ps: seq<uint8>, t: Cpu, v: uint32)
    requires t.regs == s.regs && t.memory == s.memory && t.operandSize16 == Narrow(ps)
    ensures Writable(s.memory, Below(s, ps), Size(ps)) ==> Push(t, v) == Ok(WithPushed(s, ps, t, v))
    ensures !Writable(s.memory, Below(s, ps), Size(ps)) ==>
              Push(t, v) == Fault(t.(regs := t.regs[ESP := Moved(s, ps, -1)]), MemoryFault)
  {
    hide Put, Writable, Push, Bump, Pointer;
    PushMoves(t, v);
  }

  lemma HandlerPops(s: Cpu, ps: seq<uint8>, t: Cpu)
    requires t.regs == s.regs && t.memory == s.memory && t.operandSize16 == Narrow(ps)
    ensures Mapped(s.memory, Top(s, ps), Size(ps)) ==>
              Pop(t) == Ok(Popped(t.(regs := t.regs[ESP := Moved(s, ps, 1)]), WordAt(s.memory, Top(s, ps), Size(ps))))
    ensures !Mapped(s.memory, Top(s, ps), Size(ps)) ==> Pop(t) == Fault(t, MemoryFault)
  {
    hide Get, Mapped, Pop, Bump, Pointer;
    PopMoves(t);
  }

  lemma PushHandlers(t: Cpu)
    ensures 0x50 <= t.opbyte < 0x58 ==> Basic(t) == PushR(t, t.opbyte - 0x50)
    ensures 0x58 <= t.opbyte < 0x60 ==> Basic(t) == PopR(t, t.opbyte - 0x58)
    ensures t.opbyte == 0xC3 ==> Basic(t) == Retn(t)
    ensures t.opbyte == 0xC2 ==> Basic(t) == RetnImm16(t)
    ensures t.opbyte == 0xE8 ==> Basic(t) == CallRelW(t)
    ensures t.opbyte == 0xC9 ==> Basic(t) == LeaveFrame(t)
  {
    hide PushR, PopR, Retn, RetnImm16, CallRelW, LeaveFrame;
  }

  /** PUSH r, opcode 0x50 + i: register i as it was before ESP moved. */
  lemma PushRegister(s: Cpu, ps: seq<uint8>, i: RegisterIndex)
    requires Prefixed(s, ps, 0x50 + i)
    ensures
      if Writable(s.memory, Below(s, ps), Size(ps)) then
        Cycle(s) == Ok(WithPushed(s, ps, Next(s, ps, 0x50 + i, 1), RegisterValue(s, ps, i)))
      else
        Cycle(s) == Fault(Started(s, ps, 0x50 + i).(regs := s.regs[ESP := Moved(s, ps, -1)]), MemoryFault)
  {
    hide Cycle, Basic, Push, Put, Writable, Below, Moved, Prefixed, RegisterValue, Reg;
    var t := Started(s, ps, 0x50 + i);
    PushHandlers(t);
    RegIsValue(s, ps, 0x50 + i, i);
    HandlerPushes(s, ps, t, RegisterValue(s, ps, i));
    if Writable(s.memory, Below(s, ps), Size(ps)) {
      Ends(s, ps, 0x50 + i, 1, Push(t, RegisterValue(s, ps, i)).value);
    } else {
      Faults(s, ps, 0x50 + i, Push(t, RegisterValue(s, ps, i)).at, MemoryFault);
    }
  }

  /** POP r, opcode 0x58 + i: the word is assigned after ESP has moved, so that POP ESP ends with the word. */
  lemma PopRegister(s: Cpu, ps: seq<uint8>, i: RegisterIndex)
    requires Prefixed(s, ps, 0x58 + i)
    ensures
      if Mapped(s.memory, Top(s, ps), Size(ps)) then
        var regs: Registers := s.regs[ESP := Moved(s, ps, 1)];
        Cycle(s) == Ok(Next(s, ps, 0x58 + i, 1).(
          regs := regs[i := Assigned(regs[i], WordAt(s.memory, Top(s, ps), Size(ps)), Narrow(ps))]))
      else Cycle(s) == Fault(Started(s, ps, 0x58 + i), MemoryFault)
  {
    hide Cycle, Basic, Pop, Mapped, Get, Top, Moved, Prefixed, Assigned;
    var t := Started(s, ps, 0x58 + i);
    PushHandlers(t);
    HandlerPops(s, ps, t);
    if Mapped(s.memory, Top(s, ps), Size(ps)) {
      var p := Pop(t).value;
      SetRegAssigns(p.cpu, i, p.value);
      Ends(s, ps, 0x58 + i, 1, SetReg(p.cpu, i, p.value));
    } else {
      Faults(s, ps, 0x58 + i, t, MemoryFault);
    }
  }

  // ----- Calls and returns -----

  /** CALL rel pushes the address of the next instruction, of which the push keeps the low half at 16 bits, and
      goes to that address plus the signed displacement. */
  lemma CallRelative(s: Cpu, ps: seq<uint8>)
    requires Prefixed(s, ps, 0xE8) && Mapped(s.memory, At(s, ps, 1), Size(ps))
    ensures
      var n, low := Size(ps), Narrow(ps);
      if Writable(s.memory, Below(s, ps), n) then
        var disp := SignExtend(WordAt(s.memory, At(s, ps, 1), n), Modulus(low));
        Cycle(s) == Ok(WithPushed(s, ps, Next(s, ps, 0xE8, n + 1), At(s, ps, n + 1)).(
          eip := Truncate(At(s, ps, n + 1) + disp, low)))
      else Cycle(s).Fault? && Cycle(s).cause == MemoryFault
  {
    hide Cycle, Basic, Push, Put, Writable, Mapped, Get, Below, Moved, Prefixed, SignExtend, CallRelW, JmpNearW, ReadCodeW;
    var t, n := Started(s, ps, 0xE8), Size(ps);
    PushHandlers(t);
    WrapAdd(s.eip + |ps|, n + 1);
    FetchesWord(s, ps, 0xE8);
    var v, rel := Skip(t, n + 1), WordAt(s.memory, At(s, ps, 1), n);
    CallHandler(t, rel);
    HandlerPushes(s, ps, v, v.eip);
    if Writable(s.memory, Below(s, ps), n) {
      var u := WithPushed(s, ps, v, v.eip);
      WordBound(s.memory, At(s, ps, 1), Narrow(ps));
      JumpLands(u, rel);
      GoesTo(s, ps, 0xE8, Skip(JmpNearW(u, rel), -1), JmpNearW(u, rel).eip);
    } else {
      Faults(s, ps, 0xE8, Push(v, v.eip).at, MemoryFault);
    }
  }

  lemma CallHandler(t: Cpu, rel: uint32)
    requires ReadCodeW(t, 1) == Ok(rel)
    ensures
      var v := Skip(t, OperandSize(t) + 1);
      CallRelW(t) ==
        match Push(v, v.eip)
        case Ok(u) => Ok(Skip(JmpNearW(u, rel), -1))
        case Fault(u, cause) => Fault(u, cause)
  {
    hide Push, JmpNearW, ReadCodeW;
  }

  /** RET goes to the word on top of the stack. */
  lemma Return(s: Cpu, ps: seq<uint8>)
    requires Prefixed(s, ps, 0xC3)
    ensures
      if Mapped(s.memory, Top(s, ps), Size(ps)) then
        Cycle(s) == Ok(Next(s, ps, 0xC3, 0).(
          eip := WordAt(s.memory, Top(s, ps), Size(ps)), regs := s.regs[ESP := Moved(s, ps, 1)]))
      else Cycle(s) == Fault(Started(s, ps, 0xC3), MemoryFault)
  {
    hide Cycle, Basic, Pop, Mapped, Get, Top, Moved, Prefixed;
    var t := Started(s, ps, 0xC3);
    PushHandlers(t);
    HandlerPops(s, ps, t);
    if Mapped(s.memory, Top(s, ps), Size(ps)) {
      GoesTo(s, ps, 0xC3, Retn(t).value, Pop(t).value.value);
    } else {
      Faults(s, ps, 0xC3, t, MemoryFault);
    }
  }

  /** RET imm16 adds its immediate to all of ESP afterwards, at both operand sizes. */
  lemma ReturnDropping(s: Cpu, ps: seq<uint8>)
    requires Prefixed(s, ps, 0xC2) && Mapped(s.memory, At(s, ps, 1), 2)
    ensures
      if Mapped(s.memory, Top(s, ps), Size(ps)) then
        Cycle(s) == Ok(Next(s, ps, 0xC2, 0).(
          eip := WordAt(s.memory, Top(s, ps), Size(ps)),
          regs := s.regs[ESP := Wrap32(Moved(s, ps, 1) + WordAt(s.memory, At(s, ps, 1), 2))]))
      else Cycle(s) == Fault(Started(s, ps, 0xC2), MemoryFault)
  {
    hide Cycle, Basic, Pop, Mapped, Get, Top, Moved, Prefixed, ReadCode, RetnImm16;
    var t, imm := Started(s, ps, 0xC2), WordAt(s.memory, At(s, ps, 1), 2);
    PushHandlers(t);
    HandlerPops(s, ps, t);
    FetchesAt(s, ps, 0xC2, 1, 2);
    DroppingHandler(t, imm);
    if Mapped(s.memory, Top(s, ps), Size(ps)) {
      var p := Pop(t).value.cpu;
      var esp := Wrap32(p.regs[ESP] as int + imm);
      assert p.regs[ESP := esp] == s.regs[ESP := esp];
      GoesTo(s, ps, 0xC2, RetnImm16(t).value, Pop(t).value.value);
    } else {
      Faults(s, ps, 0xC2, t, MemoryFault);
    }
  }

  lemma DroppingHandler(t: Cpu, imm: uint32)
    requires ReadCode(t, 1, 2) == Ok(imm)
    ensures
      RetnImm16(t) ==
        match Pop(t)
        case Ok(p) =>
          Ok(p.cpu.(eip := Wrap32(p.value as int - 1), regs := p.cpu.regs[ESP := Wrap32(p.cpu.regs[ESP] + imm)]))
        case Fault(u, cause) => Fault(u, cause)
  {
    hide Pop, ReadCode;
  }

  /** LEAVE takes the stack pointer from EBP and pops EBP. */
  lemma Leave(s: Cpu, ps: seq<uint8>)
    requires Prefixed(s, ps, 0xC9)
    ensures
      var a, n, low := RegisterValue(s, ps, EBP), Size(ps), Narrow(ps);
      if Mapped(s.memory, a, n) then
        Cycle(s) == Ok(Next(s, ps, 0xC9, 1).(regs := s.regs
          [ESP := Bump(Assigned(s.regs[ESP], a, low), n, low)]
          [EBP := Assigned(s.regs[EBP], WordAt(s.memory, a, n), low)]))
      else Cycle(s).Fault? && Cycle(s).cause == MemoryFault && Cycle(s).at.memory == s.memory
  {
    hide Cycle, Basic, Pop, Mapped, Get, Moved, Prefixed, Assigned, Bump, SetReg, Reg, Pointer;
    var t, a := Started(s, ps, 0xC9), RegisterValue(s, ps, EBP);
    PushHandlers(t);
    RegIsValue(s, ps, 0xC9, EBP);
    SetRegAssigns(t, ESP, a);
    var v := SetReg(t, ESP, a);
    PointerAssigned(s.regs[ESP], s.regs[EBP], Narrow(ps));
    PopMoves(v);
    if Mapped(s.memory, a, Size(ps)) {
      var p := Pop(v).value;
      SetRegAssigns(p.cpu, EBP, p.value);
      var esp := Bump(Assigned(s.regs[ESP], a, Narrow(ps)), Size(ps), Narrow(ps));
      assert p.cpu.regs == s.regs[ESP := esp];
      Ends(s, ps, 0xC9, 1, SetReg(p.cpu, EBP, p.value));
    } else {
      Faults(s, ps, 0xC9, v, MemoryFault);
    }
  }

  lemma PointerAssigned(r: uint32, x: uint32, low: bool)
    ensures Pointer(Assigned(r, Pointer(x, low), low), low) == Pointer(x, low)
  {
    if low {
      LowPart(r / 0x1_0000, x % 0x1_0000);
    }
  }
}
