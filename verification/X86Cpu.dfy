/**
  The processor as the C++ class: registers in an array, the other state in fields, and one
  method per helper and opcode handler that assigns them.  Each method is proved to do to the
  fields exactly what the function of the same name does to the state value.
*/
module X86Cpu {
  import opened Words
  import opened FlatMemory
  import opened Arithmetic
  import opened ArithmeticLaws
  import opened CpuState
  import opened ModRm
  import Isa
  import B = Bits
  import R = Rotates
  import opened RotateUnit

  /** How a method ends: normally, or by throwing. */
  datatype Status = Completed | Threw(cause: Cause) {
    predicate IsFailure() {
      Threw?
    }

    function PropagateFailure(): Status
      requires Threw?
    {
      this
    }
  }

  class X86CPU {
    const regs32: array<uint32>
    var eip: uint32
    var freg: Flags
    var operandSize16: bool
    var addressSize16: bool
    var stringCompares: bool
    var doStop: bool
    var beginEip: uint32
    var opbyte: uint8
    var gasUsed: int
    var gasLimit: int
    var memory: Memory

    /** The reset state: 32-bit sizes, code at 0x1000, the stack below 0x200800. */
    constructor (mem: Memory)
      ensures Valid() && fresh(regs32)
      ensures eip == 0x1000 && regs32[..] == [0, 0, 0, 0, 0x20_0800, 0, 0, 0]
      ensures freg == Flags(false, false, false, false, false, false, false, false)
      ensures !operandSize16 && !addressSize16 && !stringCompares && !doStop
      ensures beginEip == opbyte == 0 && gasUsed == gasLimit == 0
      ensures memory == mem
    {
      regs32 := new uint32[8](i => if i == 4 then 0x20_0800 else 0);
      eip := 0x1000;
      freg := Flags(false, false, false, false, false, false, false, false);
      operandSize16, addressSize16, stringCompares, doStop := false, false, false, false;
      beginEip, opbyte, gasUsed, gasLimit := 0, 0, 0, 0;
      memory := mem;
    }

    predicate Valid()
    {
      regs32.Length == 8
    }

    /** The state as a value. */
    function State(): Cpu
      requires Valid()
      reads this, regs32
    {
      Cpu(regs32[..], eip, freg, operandSize16, addressSize16, stringCompares, doStop,
          beginEip, opbyte, gasUsed, gasLimit, memory)
    }

    /** The object is in the state that `r` says, and `e` tells whether `r` completed. */
    ghost predicate Reaches(r: Step, e: Status)
      requires Valid()
      reads this, regs32
    {
      match r
      case Ok(s) => e == Completed && State() == s
      case Fault(s, cause) => e == Threw(cause) && State() == s
    }

    // ----- include/x86lib.h, vm/cpu_helpers.cpp -----

    method SetReg32(i: RegisterIndex, v: uint32)
      requires Valid()
      modifies regs32
      ensures State() == CpuState.SetReg32(old(State()), i, v)
    {
      regs32[i] := v;
    }

    method SetReg16(i: RegisterIndex, v: uint16)
      requires Valid()
      modifies regs32
      ensures State() == CpuState.SetReg16(old(State()), i, v)
    {
      regs32[i] := regs32[i] - regs32[i] % 0x1_0000 + v;
    }

    method SetReg(i: RegisterIndex, v: uint32)
      requires Valid()
      modifies regs32
      ensures State() == CpuState.SetReg(old(State()), i, v)
    {
      if operandSize16 {
        SetReg16(i, Wrap16(v));
      } else {
        SetReg32(i, v);
      }
    }

    method ReadBytes(a: uint32, n: nat) returns (e: Status, v: uint32)
      requires Valid() && n <= 4
      ensures
        match Read(State(), a, n)
        case Ok(x) => e == Completed && v == x
        case Fault(s, cause) => e == Threw(cause) && s == State()
    {
      if !Mapped(memory, a, n) {
        return Threw(MemoryFault), 0;
      }
      GetFits(memory, a, n);
      return Completed, Get(memory, a, n);
    }

    method WriteBytes(a: uint32, n: nat, v: uint32) returns (e: Status)
      requires Valid()
      modifies this
      ensures Reaches(Write(old(State()), a, n, v), e)
    {
      if !Writable(memory, a, n) {
        return Threw(MemoryFault);
      }
      memory := Put(memory, a, n, v);
      return Completed;
    }

    method FetchCode(index: int, n: nat) returns (e: Status, v: uint32)
      requires Valid() && n <= 4
      ensures
        match ReadCode(State(), index, n)
        case Ok(x) => e == Completed && v == x
        case Fault(s, cause) => e == Threw(cause) && s == State()
    {
      e, v := ReadBytes(Wrap32(eip + index), n);
    }

    method FetchCode8(index: int) returns (e: Status, v: uint8)
      requires Valid()
      ensures
        match ReadCode8(State(), index)
        case Ok(x) => e == Completed && v == x
        case Fault(s, cause) => e == Threw(cause) && s == State()
    {
      var w: uint32;
      e, w := FetchCode(index, 1);
      v := w % 0x100;
    }

    method Push(val: uint32) returns (e: Status)
      requires Valid()
      modifies this, regs32
      ensures Reaches(CpuState.Push(old(State()), val), e)
    {
      if !operandSize16 {
        SetReg32(ESP, Wrap32(regs32[ESP] as int - 4));
        e := WriteBytes(regs32[ESP], 4, val);
      } else {
        SetReg16(ESP, Wrap16(Reg16(State(), ESP) - 2));
        e := WriteBytes(Reg16(State(), ESP), 2, val);
      }
    }

    method Pop() returns (e: Status, tmp: uint32)
      requires Valid()
      modifies regs32
      ensures
        match CpuState.Pop(old(State()))
        case Ok(p) => e == Completed && State() == p.cpu && tmp == p.value
        case Fault(s, cause) => e == Threw(cause) && State() == s
    {
      if !operandSize16 {
        e, tmp := ReadBytes(regs32[ESP], 4);
        if e == Completed {
          SetReg32(ESP, Wrap32(regs32[ESP] as int + 4));
        }
      } else {
        e, tmp := ReadBytes(Reg16(State(), ESP), 2);
        if e == Completed {
          SetReg16(ESP, Wrap16(Reg16(State(), ESP) + 2));
        }
      }
    }

    method SetIndex()
      requires Valid()
      modifies regs32
      ensures State() == CpuState.SetIndex(old(State()))
    {
      var size: int := if operandSize16 then 2 else 4;
      var delta: int := if freg.df then 0 - size else size;
      if operandSize16 {
        SetReg16(ESI, Wrap16(Reg(State(), ESI) + delta));
        SetReg16(EDI, Wrap16(Reg(State(), EDI) + delta));
      } else {
        SetReg32(ESI, Wrap32(regs32[ESI] as int + delta));
        SetReg32(EDI, Wrap32(regs32[EDI] as int + delta));
      }
    }

    method JumpNearW(off: uint32)
      requires Valid()
      modifies `eip
      ensures State() == JmpNearW(old(State()), off)
    {
      if !operandSize16 {
        if off < 0x8000_0000 {
          eip := Wrap32(eip + off);
        } else {
          eip := Wrap32(eip - (0x1_0000_0000 - off));
        }
      } else {
        var o := Wrap16(off);
        if o < 0x8000 {
          eip := Wrap32(eip + o);
        } else {
          eip := Wrap32(eip - (0x1_0000 - o));
        }
        eip := Wrap16(eip);
      }
    }

    method JumpNear8(off: uint8)
      requires Valid()
      modifies `eip
      ensures State() == JmpNear(old(State()), off, 0x100)
    {
      if off < 0x80 {
        eip := Wrap32(eip + off);
      } else {
        eip := Wrap32(eip - (0x100 - off));
      }
      if operandSize16 {
        eip := Wrap16(eip);
      }
    }

    // ----- Flag calculators -----

    method CalculatePF(val: uint32)
      modifies `freg
      ensures freg == old(freg).(pf := EvenParity(val))
    {
      var count := 0;
      var rest := val % 0x100;
      for i := 0 to 8
        invariant 0 <= rest && count + Ones(rest) == Ones(val % 0x100)
        invariant rest < [0x100, 0x80, 0x40, 0x20, 0x10, 8, 4, 2, 1][i]
      {
        if rest % 2 != 0 {
          count := count + 1;
        }
        rest := rest / 2;
      }
      freg := freg.(pf := count % 2 == 0);
    }

    /** The flags that only look at the result. */
    method CalculateResult(result: uint32)
      requires Valid()
      modifies `freg
      ensures freg == ResultFlags(old(freg), result, operandSize16)
    {
      freg := freg.(zf := result == 0);
      CalculatePF(result);
      freg := freg.(sf := Sign(result, operandSize16));
    }

    method AddW(base0: uint32, adder0: uint32) returns (result: uint32)
      requires Valid()
      modifies `freg
      ensures Outcome(result, freg) == Add(old(freg), base0, adder0, operandSize16)
    {
      var base, adder := Truncate(base0, operandSize16), Truncate(adder0, operandSize16);
      result := Sum(base, adder, operandSize16);
      freg := freg.(cf := result < Min(base, adder));
      freg := freg.(of := Overflow(result, base, adder, operandSize16));
      CalculateResult(result);
      freg := freg.(af := base % 0x10 + adder % 0x10 > 15);
    }

    method SubW(base0: uint32, subt0: uint32) returns (result: uint32)
      requires Valid()
      modifies `freg
      ensures Outcome(result, freg) == Sub(old(freg), base0, subt0, operandSize16)
    {
      var base, subt := Truncate(base0, operandSize16), Truncate(subt0, operandSize16);
      result := Difference(base, subt, operandSize16);
      freg := freg.(cf := subt > base);
      freg := freg.(of := Overflow(result, base, Negated(subt, operandSize16), operandSize16));
      CalculateResult(result);
      freg := freg.(af := base as int % 0x10 - subt as int % 0x10 < 0);
    }

    // ----- Rotates and double shifts, at the width `w` -----

    method RotateLeft(w: nat, base: uint32, count0: uint8) returns (result: uint32)
      requires Width(w) && base < B.Pow2(w)
      modifies `freg
      ensures Outcome(result, freg) == Rotated(R.Rol, w, old(freg), base, count0)
    {
      hide Rotated, Width, Turns, B.Pow2, B.Bit, TopDiffers, TopTwoDiffer, R.RolShifts;
      WidthFits(w);
      RolClosed(w, freg, base, count0);
      var count := Turns(count0, w);
      if count == 0 {
        return base;
      }
      result := R.RolShifts(w, base, count);
      freg := freg.(cf := result % 2 == 1);
      freg := freg.(of := count == 1 && TopDiffers(w, result, freg.cf));
    }

    method RotateRight(w: nat, base: uint32, count0: uint8) returns (result: uint32)
      requires Width(w) && base < B.Pow2(w)
      modifies `freg
      ensures Outcome(result, freg) == Rotated(R.Ror, w, old(freg), base, count0)
    {
      hide Rotated, Width, Turns, B.Pow2, B.Bit, TopDiffers, TopTwoDiffer, R.RorShifts;
      WidthFits(w);
      RorClosed(w, freg, base, count0);
      var count := Turns(count0, w);
      if count == 0 {
        return base;
      }
      result := R.RorShifts(w, base, count);
      freg := freg.(cf := B.Bit(result, w - 1));
      freg := freg.(of := count == 1 && TopTwoDiffer(w, result));
    }

    method RotateCarryLeft(w: nat, base: uint32, count0: uint8) returns (result: uint32)
      requires Width(w) && base < B.Pow2(w)
      modifies `freg
      ensures Outcome(result, freg) == Rotated(R.Rcl, w, old(freg), base, count0)
    {
      hide Rotated, Width, Turns, B.Pow2, B.Bit, TopDiffers, TopTwoDiffer, R.RclShifts, B.Shr, Kept;
      WidthFits(w);
      RclClosed(w, freg, base, count0);
      var count := Turns(count0, w);
      if count == 0 {
        return base;
      }
      var big := R.RclShifts(w, base, freg.cf, count);
      freg := freg.(cf := B.Bit(big, w + 1));
      result := Kept(w, B.Shr(big, 1));
      freg := freg.(of := count == 1 && TopDiffers(w, result, freg.cf));
    }

    method RotateCarryRight(w: nat, base: uint32, count0: uint8) returns (result: uint32)
      requires Width(w) && base < B.Pow2(w)
      modifies `freg
      ensures Outcome(result, freg) == Rotated(R.Rcr, w, old(freg), base, count0)
    {
      hide Rotated, Width, Turns, B.Pow2, B.Bit, TopDiffers, TopTwoDiffer, R.RcrShifts, Kept, Container;
      WidthFits(w);
      RcrClosed(w, freg, base, count0);
      var count := Turns(count0, w);
      if count == 0 {
        return base;
      }
      var big := Kept(Container(w), R.RcrShifts(w, base, freg.cf, count));
      freg := freg.(cf := B.Bit(big, w));
      result := Kept(w, big);
      freg := freg.(of := count == 1 && TopTwoDiffer(w, result));
    }

    method ShiftLeftDoublePrecision(w: nat, des0: uint32, src0: uint32, count0: uint8) returns (des: uint32)
      requires DoubleWidth(w) && des0 < B.Pow2(w) && src0 < B.Pow2(w)
      modifies `freg
      ensures Outcome(des, freg) == ShiftedLeft(w, old(freg), des0, src0, count0)
    {
      hide ShiftedLeft, DoubleWidth, Positions, B.Pow2, B.Bit, TopDiffers, TopTwoDiffer, EvenParity, Sign, R.ShldShifts;
      WidthFits(w);
      ShldClosed(w, freg, des0, src0, count0);
      var count := Positions(count0, w);
      if count == 0 {
        return des0;
      }
      freg := freg.(cf := B.Bit(des0, w - count));
      des := R.ShldShifts(w, des0, src0, count);
      if count == 1 {
        freg := freg.(of := TopDiffers(w, des, freg.cf));
      }
      CalculatePF(des);
      freg := freg.(sf := Sign(des, w == 16));
      freg := freg.(zf := des == 0);
    }

    method ShiftRightDoublePrecision(w: nat, des0: uint32, src0: uint32, count0: uint8) returns (des: uint32)
      requires DoubleWidth(w) && des0 < B.Pow2(w) && src0 < B.Pow2(w)
      modifies `freg
      ensures Outcome(des, freg) == ShiftedRight(w, old(freg), des0, src0, count0)
    {
      hide ShiftedRight, DoubleWidth, Positions, B.Pow2, B.Bit, TopDiffers, TopTwoDiffer, EvenParity, Sign, R.ShrdShifts;
      WidthFits(w);
      ShrdClosed(w, freg, des0, src0, count0);
      var count := Positions(count0, w);
      if count == 0 {
        return des0;
      }
      freg := freg.(cf := B.Bit(des0, count - 1));
      des := R.ShrdShifts(w, des0, src0, count);
      freg := freg.(of := count == 1 && TopTwoDiffer(w, des));
      CalculatePF(des);
      freg := freg.(sf := Sign(des, w == 16));
      freg := freg.(zf := des == 0);
    }

    // ----- vm/ops/store.cpp -----

    method PushR(i: RegisterIndex) returns (e: Status)
      requires Valid()
      modifies this, regs32
      ensures Reaches(Isa.PushR(old(State()), i), e)
    {
      e := Push(Reg(State(), i));
    }

    method PopR(i: RegisterIndex) returns (e: Status)
      requires Valid()
      modifies regs32
      ensures Reaches(Isa.PopR(old(State()), i), e)
    {
      var v :- Pop();
      SetReg(i, v);
      return Completed;
    }

    method MovRImm(i: RegisterIndex) returns (e: Status)
      requires Valid()
      modifies this, regs32
      ensures Reaches(Isa.MovRImm(old(State()), i), e)
    {
      var v :- FetchCode(1, OperandSize(State()));
      SetReg(i, v);
      eip := Wrap32(eip + OperandSize(State()));
      return Completed;
    }

    method Pusha() returns (e: Status)
      requires Valid()
      modifies this, regs32
      ensures Reaches(Isa.Pusha(old(State())), e)
    {
      var tmp := Reg(State(), ESP);
      :- PushR(EAX);
      :- PushR(ECX);
      :- PushR(EDX);
      :- PushR(EBX);
      :- Push(tmp);
      :- PushR(EBP);
      :- PushR(ESI);
      e := PushR(EDI);
    }

    method Popa() returns (e: Status)
      requires Valid()
      modifies regs32
      ensures Reaches(Isa.Popa(old(State())), e)
    {
      hide Isa.PopPointers, Isa.PopOthers;
      var ofs: int := if operandSize16 then 2 else 4;
      :- PopPointers();
      ghost var t := State();
      SetReg(ESP, Wrap32(Reg(State(), ESP) as int + ofs));
      assert State() == CpuState.SetReg(t, ESP, Wrap32(Reg(t, ESP) as int + ofs));
      e := PopOthers();
    }

    method PopPointers() returns (e: Status)
      requires Valid()
      modifies regs32
      ensures Reaches(Isa.PopPointers(old(State())), e)
    {
      hide CpuState.SetReg, CpuState.Pop;
      :- PopR(EDI);
      :- PopR(ESI);
      e := PopR(EBP);
    }

    method PopOthers() returns (e: Status)
      requires Valid()
      modifies regs32
      ensures Reaches(Isa.PopOthers(old(State())), e)
    {
      hide CpuState.SetReg, CpuState.Pop;
      :- PopR(EBX);
      :- PopR(EDX);
      :- PopR(ECX);
      e := PopR(EAX);
    }

    method Enter() returns (e: Status)
      requires Valid()
      modifies this, regs32
      ensures Reaches(Isa.Enter(old(State())), e)
    {
      var size :- FetchCode(1, 2);
      eip := Wrap32(eip + 2);
      assert State() == CpuState.Skip(old(State()), 2);
      var nesting :- FetchCode8(1);
      eip := Wrap32(eip + 1);
      assert State() == CpuState.Skip(CpuState.Skip(old(State()), 2), 1);
      e := EnterFrame(Wrap16(size), nesting % 32);
    }

    method EnterFrame(size: uint16, nestingLevel: nat) returns (e: Status)
      requires Valid()
      modifies this, regs32
      ensures Reaches(Isa.EnterFrame(old(State()), size, nestingLevel), e)
    {
      hide Isa.PushR, CpuState.Push, Isa.EnterLoop;
      :- PushR(EBP);
      var frameTemp := Reg(State(), ESP);
      ghost var t := State();
      :- EnterLoop(nestingLevel);
      ghost var u := State();
      assert Isa.EnterLoop(t, 1, nestingLevel) == Ok(u);
      if nestingLevel > 0 {
        :- Push(frameTemp);
      }
      SetReg(EBP, frameTemp);
      SetReg(ESP, Wrap32(Reg(State(), EBP) as int - size));
      return Completed;
    }

    method EnterLoop(nestingLevel: nat) returns (e: Status)
      requires Valid()
      modifies this, regs32
      ensures Reaches(Isa.EnterLoop(old(State()), 1, nestingLevel), e)
    {
      hide CpuState.Push, CpuState.SetReg, CpuState.Reg;
      for i := 1 to if nestingLevel > 1 then nestingLevel else 1
        invariant Isa.EnterLoop(State(), i, nestingLevel) == Isa.EnterLoop(old(State()), 1, nestingLevel)
      {
        if operandSize16 {
          SetReg(EBP, Wrap32(Reg(State(), EBP) as int - 2));
        } else {
          SetReg(EBP, Wrap32(Reg(State(), EBP) as int - 4));
        }
        :- PushR(EBP);
      }
      return Completed;
    }

    method LeaveFrame() returns (e: Status)
      requires Valid()
      modifies regs32
      ensures Reaches(Isa.LeaveFrame(old(State())), e)
    {
      SetReg(ESP, Reg(State(), EBP));
      e := PopR(EBP);
    }

    // ----- vm/ops/flow.cpp, vm/ops/flags.cpp -----

    method JmpRelW() returns (e: Status)
      requires Valid()
      modifies this
      ensures Reaches(Isa.JmpRelW(old(State())), e)
    {
      var rel :- FetchCode(1, OperandSize(State()));
      eip := Wrap32(eip + OperandSize(State()) + 1);
      JumpNearW(rel);
      eip := Wrap32(eip as int - 1);
      return Completed;
    }

    method CallRelW() returns (e: Status)
      requires Valid()
      modifies this, regs32
      ensures Reaches(Isa.CallRelW(old(State())), e)
    {
      hide ReadCode, CpuState.Push;
      var tmp :- FetchCode(1, OperandSize(State()));
      eip := Wrap32(eip + (if operandSize16 then 2 else 4) + 1);
      :- Push(eip);
      JumpNearW(tmp);
      eip := Wrap32(eip as int - 1);
      return Completed;
    }

    method Retn() returns (e: Status)
      requires Valid()
      modifies this, regs32
      ensures Reaches(Isa.Retn(old(State())), e)
    {
      var target :- Pop();
      eip := target;
      eip := Wrap32(eip as int - 1);
      return Completed;
    }

    method RetnImm16() returns (e: Status)
      requires Valid()
      modifies this, regs32
      ensures Reaches(Isa.RetnImm16(old(State())), e)
    {
      var imm :- FetchCode(1, 2);
      :- Retn();
      SetReg32(ESP, Wrap32(regs32[ESP] as int + imm));
      return Completed;
    }

    method JccRel8(condition: nat) returns (e: Status)
      requires Valid() && condition < 16
      modifies this
      ensures Reaches(Isa.JccRel8(old(State()), condition), e)
    {
      var rel :- FetchCode8(1);
      if Jcc(condition, freg) {
        eip := Wrap32(eip + 2);
        JumpNear8(rel);
        eip := Wrap32(eip as int - 1);
      } else {
        eip := Wrap32(eip + 1);
      }
      return Completed;
    }

    method JccRelW(condition: nat) returns (e: Status)
      requires Valid() && condition < 16
      modifies this
      ensures Reaches(Isa.JccRelW(old(State()), condition), e)
    {
      var rel :- FetchCode(1, OperandSize(State()));
      if Jcc(condition, freg) {
        eip := Wrap32(eip + OperandSize(State()) + 1);
        JumpNearW(rel);
        eip := Wrap32(eip as int - 1);
      } else {
        eip := Wrap32(eip + OperandSize(State()));
      }
      return Completed;
    }

    // ----- vm/ops/maths.cpp, vm/ops/groups.cpp -----

    method IncR(i: RegisterIndex) returns (e: Status)
      requires Valid()
      modifies this, regs32
      ensures Reaches(Isa.IncR(old(State()), i), e)
    {
      freg := freg.(r0 := freg.cf);
      var r := AddW(Reg(State(), i), 1);
      SetReg(i, r);
      freg := freg.(cf := freg.r0);
      return Completed;
    }

    method DecR(i: RegisterIndex) returns (e: Status)
      requires Valid()
      modifies this, regs32
      ensures Reaches(Isa.DecR(old(State()), i), e)
    {
      freg := freg.(r0 := freg.cf);
      var r := SubW(Reg(State(), i), 1);
      SetReg(i, r);
      freg := freg.(cf := freg.r0);
      return Completed;
    }

    // ----- vm/modrm.cpp -----

    /** The constructor of the operand decoder. */
    method DecodeModRm() returns (e: Status, rm: Operand)
      requires Valid()
      modifies `eip
      ensures
        match Decode(old(State()))
        case Ok(d) => e == Completed && State() == d.cpu && rm == d.rm
        case Fault(s, cause) => e == Threw(cause) && State() == s
    {
      eip := Wrap32(eip + 1);
      rm := FromBytes(0, 0);
      var modrm :- FetchCode8(0);
      var sib :- FetchCode8(1);
      rm := FromBytes(modrm, sib);
      return Completed, rm;
    }

    /** Its destructor. */
    method LeaveModRm(rm: Operand)
      requires Valid()
      modifies `eip
      ensures State() == CpuState.Skip(old(State()), Length(old(State()), rm) - 1)
    {
      eip := Wrap32(eip + Length(State(), rm) - 1);
    }

    method RmReadW(rm: Operand) returns (e: Status, v: uint32)
      requires Valid()
      ensures
        match RmRead(State(), rm)
        case Ok(x) => e == Completed && v == x
        case Fault(s, cause) => e == Threw(cause) && State() == s
    {
      if rm.mod == 3 {
        return Completed, Reg(State(), rm.rm);
      }
      match Address(State(), rm)
      case Ok(a) => e, v := ReadBytes(a, OperandSize(State()));
      case Fault(_, cause) => return Threw(cause), 0;
    }

    method RmWriteW(rm: Operand, v: uint32) returns (e: Status)
      requires Valid()
      modifies this, regs32
      ensures Reaches(RmWrite(old(State()), rm, v), e)
    {
      if rm.mod == 3 {
        SetReg(rm.rm, v);
        return Completed;
      }
      match Address(State(), rm)
      case Ok(a) => e := WriteBytes(a, OperandSize(State()), v);
      case Fault(_, cause) => return Threw(cause);
    }

    // ----- ModRM instructions -----

    method Alu(op: Isa.AluOp, a: uint32, b: uint32) returns (result: uint32)
      requires Valid()
      modifies `freg
      ensures Outcome(result, freg) == Isa.Alu(op, old(freg), a, b, operandSize16)
    {
      match op
      case AddOp => result := AddW(a, b);
      case AdcOp => result := AddW(a, Wrap32(b + if freg.cf then 1 else 0));
      case SubOp => result := SubW(a, b);
      case CmpOp => result := SubW(a, b);
    }

    method AluRRm(op: Isa.AluOp) returns (e: Status)
      requires Valid()
      modifies this, regs32
      ensures Reaches(Isa.AluRRm(old(State()), op), e)
    {
      hide Decode, Length, Isa.AluRRmBody;
      var rm :- DecodeModRm();
      e := AluRRmBody(rm, op);
      LeaveModRm(rm);
    }

    method AluRRmBody(rm: Operand, op: Isa.AluOp) returns (e: Status)
      requires Valid()
      modifies this, regs32
      ensures Reaches(Isa.AluRRmBody(old(State()), rm, op), e)
    {
      hide RmRead, Isa.Alu, CpuState.Reg;
      var v :- RmReadW(rm);
      var r := Alu(op, Reg(State(), rm.extra), v);
      if op != Isa.CmpOp {
        SetReg(rm.extra, r);
      }
      return Completed;
    }

    method AluGroup(immSize: nat) returns (e: Status)
      requires Valid() && immSize in {1, 2, 4}
      modifies this, regs32
      ensures Reaches(Isa.AluGroup(old(State()), immSize), e)
    {
      hide Decode, Length, Isa.AluGroupBody;
      var rm :- DecodeModRm();
      e := AluGroupBody(rm, immSize);
      LeaveModRm(rm);
    }

    method AluGroupBody(rm: Operand, immSize: nat) returns (e: Status)
      requires Valid() && immSize in {1, 2, 4}
      modifies this, regs32
      ensures Reaches(Isa.AluGroupBody(old(State()), rm, immSize), e)
    {
      hide Isa.AluRmImm;
      match rm.extra
      case 0 => e := AluRmImm(rm, Isa.AddOp, immSize);
      case 2 => e := AluRmImm(rm, Isa.AdcOp, immSize);
      case 5 => e := AluRmImm(rm, Isa.SubOp, immSize);
      case 7 => e := AluRmImm(rm, Isa.CmpOp, immSize);
      case _ => return Threw(Unmodelled);
    }

    method AluRmImm(rm: Operand, op: Isa.AluOp, immSize: nat) returns (e: Status)
      requires Valid() && immSize in {1, 2, 4}
      modifies this, regs32
      ensures Reaches(Isa.AluRmImm(old(State()), rm, op, immSize), e)
    {
      hide RmRead, RmWrite, Read, Length, Isa.Alu, SignExtend;
      var v :- RmReadW(rm);
      var imm :- FetchCode(Length(State(), rm), immSize);
      var operand := imm;
      if immSize == 1 {
        operand := Wrap32(SignExtend(imm, 0x100));
      }
      var r := Alu(op, v, operand);
      ghost var t := State();
      assert t == old(State()).(freg := Isa.Alu(op, old(State()).freg, v, operand, operandSize16).freg);
      if op != Isa.CmpOp {
        :- RmWriteW(rm, r);
      }
      ghost var u := State();
      assert Isa.AluRmImm(old(State()), rm, op, immSize) == Ok(CpuState.Skip(u, immSize));
      eip := Wrap32(eip + immSize);
      return Completed;
    }

    method GroupF7() returns (e: Status)
      requires Valid()
      modifies this, regs32
      ensures Reaches(Isa.GroupF7(old(State())), e)
    {
      hide Decode, Length, Isa.ImulRm, Isa.IdivRm;
      var rm :- DecodeModRm();
      match rm.extra {
        case 5 => e := ImulRm(rm);
        case 7 => e := IdivRm(rm);
        case _ => e := Threw(Unmodelled);
      }
      LeaveModRm(rm);
    }

    method ImulRm(rm: Operand) returns (e: Status)
      requires Valid()
      modifies this, regs32
      ensures Reaches(Isa.ImulRm(old(State()), rm), e)
    {
      hide RmRead, Imul;
      var v :- RmReadW(rm);
      var high, low, overflow := SignedProduct(Reg(State(), EAX), Truncate(v, operandSize16), operandSize16);
      ImulDetermined(Reg(State(), EAX), Truncate(v, operandSize16), operandSize16, high, low, overflow);
      freg := freg.(of := overflow, cf := overflow);
      SetReg(EDX, high);
      SetReg(EAX, low);
      return Completed;
    }

    method IdivRm(rm: Operand) returns (e: Status)
      requires Valid()
      modifies this, regs32
      ensures Reaches(Isa.IdivRm(old(State()), rm), e)
    {
      hide RmRead, Idiv;
      var v :- RmReadW(rm);
      var r := SignedQuotient(Reg(State(), EDX), Reg(State(), EAX), Truncate(v, operandSize16), operandSize16);
      IdivMeaning(Reg(State(), EDX), Reg(State(), EAX), Truncate(v, operandSize16), operandSize16);
      if r.DivideFault? {
        return Threw(DivideError);
      }
      SetReg(EDX, r.remainder);
      SetReg(EAX, r.quotient);
      return Completed;
    }

    method GroupFF() returns (e: Status)
      requires Valid()
      modifies this, regs32
      ensures Reaches(Isa.GroupFF(old(State())), e)
    {
      hide Decode, Length, Isa.CallRm, Isa.JmpRm, Isa.GroupFFBody;
      var rm :- DecodeModRm();
      if rm.extra == 2 {
        e := CallRm(rm);
      } else if rm.extra == 4 {
        e := JmpRm(rm);
      } else {
        e := GroupFFBody(rm);
        LeaveModRm(rm);
      }
    }

    method GroupFFBody(rm: Operand) returns (e: Status)
      requires Valid()
      modifies this, regs32
      ensures Reaches(Isa.GroupFFBody(old(State()), rm), e)
    {
      hide RmRead, CpuState.Push, Isa.IncRm, Isa.DecRm;
      match rm.extra
      case 0 => e := IncRm(rm);
      case 1 => e := DecRm(rm);
      case 6 =>
        var v :- RmReadW(rm);
        e := Push(v);
      case 7 =>
        eip := Wrap32(eip as int - 1);
        return Threw(UnknownOpcode);
      case _ => return Threw(Unmodelled);
    }

    method IncRm(rm: Operand) returns (e: Status)
      requires Valid()
      modifies this, regs32
      ensures Reaches(Isa.IncRm(old(State()), rm), e)
    {
      hide RmRead, RmWrite, Arithmetic.Add;
      freg := freg.(r0 := freg.cf);
      var v :- RmReadW(rm);
      var r := AddW(v, 1);
      :- RmWriteW(rm, r);
      freg := freg.(cf := freg.r0);
      return Completed;
    }

    method DecRm(rm: Operand) returns (e: Status)
      requires Valid()
      modifies this, regs32
      ensures Reaches(Isa.DecRm(old(State()), rm), e)
    {
      hide RmRead, RmWrite, Arithmetic.Sub;
      freg := freg.(r0 := freg.cf);
      var v :- RmReadW(rm);
      var r := SubW(v, 1);
      :- RmWriteW(rm, r);
      freg := freg.(cf := freg.r0);
      return Completed;
    }

    method CallRm(rm: Operand) returns (e: Status)
      requires Valid()
      modifies this, regs32
      ensures Reaches(Isa.CallRm(old(State()), rm), e)
    {
      hide CpuState.Push, RmRead;
      :- Push(Wrap32(eip + Length(State(), rm)));
      var target :- RmReadW(rm);
      eip := target;
      eip := Wrap32(eip as int - 1);
      return Completed;
    }

    method JmpRm(rm: Operand) returns (e: Status)
      requires Valid()
      modifies this, regs32
      ensures Reaches(Isa.JmpRm(old(State()), rm), e)
    {
      hide RmRead;
      var target :- RmReadW(rm);
      eip := target;
      eip := Wrap32(eip as int - 1);
      return Completed;
    }

    // ----- vm/ops/strings.cpp -----

    method MovsW() returns (e: Status)
      requires Valid()
      modifies this, regs32
      ensures Reaches(Isa.MovsW(old(State())), e)
    {
      hide CpuState.SetIndex, CpuState.Reg;
      var v :- ReadBytes(Reg(State(), ESI), OperandSize(State()));
      :- WriteBytes(Reg(State(), EDI), OperandSize(State()), v);
      SetIndex();
      return Completed;
    }

    method StosW() returns (e: Status)
      requires Valid()
      modifies this, regs32
      ensures Reaches(Isa.StosW(old(State())), e)
    {
      hide CpuState.SetIndex, CpuState.Reg;
      var size := OperandSize(State());
      :- WriteBytes(Reg(State(), EDI), size, Reg(State(), EAX));
      SetIndex();
      return Completed;
    }

    method CmpsW() returns (e: Status)
      requires Valid()
      modifies this, regs32
      ensures Reaches(Isa.CmpsW(old(State())), e)
    {
      hide Sub, CpuState.SetIndex, CpuState.Reg;
      var prev :- FetchCode8(-1);
      if prev == 0xF3 || prev == 0xF2 {
        stringCompares := true;
      }
      var a :- ReadBytes(Reg(State(), ESI), OperandSize(State()));
      var b :- ReadBytes(Reg(State(), EDI), OperandSize(State()));
      var _ := SubW(a, b);
      SetIndex();
      return Completed;
    }

    method ScasW() returns (e: Status)
      requires Valid()
      modifies this, regs32
      ensures Reaches(Isa.ScasW(old(State())), e)
    {
      hide Sub, CpuState.SetIndex, CpuState.Reg;
      var prev :- FetchCode8(-1);
      if prev == 0xF3 || prev == 0xF2 {
        stringCompares := true;
      }
      var b :- ReadBytes(Reg(State(), EDI), OperandSize(State()));
      var _ := SubW(Reg(State(), EAX), b);
      SetIndex();
      return Completed;
    }

    method StringOp(op: uint8) returns (e: Status)
      requires Valid()
      modifies this, regs32
      ensures Reaches(Isa.StringOp(old(State()), op), e)
    {
      match op
      case 0xA5 => e := MovsW();
      case 0xA7 => e := CmpsW();
      case 0xAB => e := StosW();
      case 0xAF => e := ScasW();
      case _ => return Threw(Unmodelled);
    }

    // ----- vm/ops/etc.cpp -----

    method Rep() returns (e: Status)
      requires Valid()
      modifies this, regs32
      ensures Reaches(Isa.Rep(old(State())), e)
    {
      var counter := if addressSize16 then Reg16(State(), ECX) else regs32[ECX];
      var repop := opbyte;
      var op :- FetchCode8(1);
      opbyte := op;
      if opbyte == 0xC3 {
        return Completed;
      }
      if !Isa.IsStringOpcode(opbyte) {
        eip := Wrap32(eip + 1);
        return Threw(UnknownOpcode);
      }
      if counter == 0 {
        eip := Wrap32(eip + 1);
        return Completed;
      }
      e := RepIteration(repop);
    }

    method RepIteration(repop: uint8) returns (e: Status)
      requires Valid()
      modifies this, regs32
      ensures Reaches(Isa.RepIteration(old(State()), repop, old(opbyte)), e)
    {
      hide Isa.StringOp, Isa.CountDown, Isa.RepNext;
      var repEIP := eip;
      eip := Wrap32(eip + 1);
      assert State() == CpuState.Skip(old(State()), 1);
      :- StringOp(opbyte);
      CountDown();
      RepNext(repop, repEIP);
      return Completed;
    }

    method CountDown()
      requires Valid()
      modifies regs32
      ensures State() == Isa.CountDown(old(State()))
    {
      if addressSize16 {
        SetReg16(ECX, Wrap16(Reg16(State(), ECX) - 1));
      } else {
        SetReg32(ECX, Wrap32(regs32[ECX] as int - 1));
      }
    }

    method RepNext(repop: uint8, repEIP: uint32)
      requires Valid()
      modifies this
      ensures State() == Isa.RepNext(old(State()), repop, repEIP)
    {
      eip := Wrap32(beginEip as int - 1);
      if stringCompares {
        stringCompares := false;
        if repop == 0xF2 {
          if freg.zf {
            eip := Wrap32(repEIP + 1);
          }
        } else {
          if !freg.zf {
            eip := Wrap32(repEIP + 1);
          }
        }
      }
    }

    // ----- vm/x86lib.cpp -----

    method Basic() returns (e: Status)
      requires Valid()
      modifies this, regs32
      ensures Reaches(Isa.Basic(old(State())), e)
    {
      hide Isa.IncR, Isa.DecR, Isa.PushR, Isa.PopR, Isa.JccRel8, Isa.MovRImm, Isa.AluRRm, Isa.AluGroup;
      hide Isa.Pusha, Isa.Popa, Isa.Retn, Isa.RetnImm16, Isa.Enter, Isa.LeaveFrame, Isa.CallRelW, Isa.JmpRelW;
      hide Isa.MovsW, Isa.CmpsW, Isa.StosW, Isa.ScasW, Isa.Rep, Isa.GroupF7, Isa.GroupFF;
      if 0x40 <= opbyte < 0x48 {
        e := IncR(opbyte - 0x40);
      } else if 0x48 <= opbyte < 0x50 {
        e := DecR(opbyte - 0x48);
      } else if 0x50 <= opbyte < 0x58 {
        e := PushR(opbyte - 0x50);
      } else if 0x58 <= opbyte < 0x60 {
        e := PopR(opbyte - 0x58);
      } else if 0x70 <= opbyte < 0x80 {
        e := JccRel8(opbyte - 0x70);
      } else if 0xB8 <= opbyte < 0xC0 {
        e := MovRImm(opbyte - 0xB8);
      } else {
        match opbyte
        case 0x03 => e := AluRRm(Isa.AddOp);
        case 0x13 => e := AluRRm(Isa.AdcOp);
        case 0x2B => e := AluRRm(Isa.SubOp);
        case 0x3B => e := AluRRm(Isa.CmpOp);
        case 0x60 => e := Pusha();
        case 0x61 => e := Popa();
        case 0x81 => e := AluGroup(OperandSize(State()));
        case 0x83 => e := AluGroup(1);
        case 0x90 => return Completed;
        case 0xA5 => e := MovsW();
        case 0xA7 => e := CmpsW();
        case 0xAB => e := StosW();
        case 0xAF => e := ScasW();
        case 0xC2 => e := RetnImm16();
        case 0xC3 => e := Retn();
        case 0xC8 => e := Enter();
        case 0xC9 => e := LeaveFrame();
        case 0xE8 => e := CallRelW();
        case 0xE9 => e := JmpRelW();
        case 0xF2 => e := Rep();
        case 0xF3 => e := Rep();
        case 0xF7 => e := GroupF7();
        case 0xFF => e := GroupFF();
        case _ => return Threw(Unmodelled);
      }
    }

    method TwoByte() returns (e: Status)
      requires Valid()
      modifies this, regs32
      ensures Reaches(Isa.TwoByte(old(State())), e)
    {
      hide Isa.JccRelW;
      eip := Wrap32(eip + 1);
      var op :- FetchCode8(0);
      opbyte := op;
      if 0x80 <= opbyte < 0x90 {
        e := JccRelW(opbyte - 0x80);
      } else {
        return Threw(Unmodelled);
      }
    }

    method Dispatch(fuel: nat) returns (e: Status)
      requires Valid()
      modifies this, regs32
      ensures Reaches(Isa.Dispatch(old(State()), fuel), e)
      decreases fuel, 1
    {
      hide Isa.Basic, Isa.TwoByte;
      match opbyte
      case 0x66 => e := OperandOverride(fuel);
      case 0x67 => e := AddressOverride(fuel);
      case 0x0F => e := TwoByte();
      case _ => e := Basic();
    }

    method OperandOverride(fuel: nat) returns (e: Status)
      requires Valid()
      modifies this, regs32
      ensures Reaches(Isa.OperandOverride(old(State()), fuel), e)
      decreases fuel, 0
    {
      hide ReadCode8, Isa.Dispatch;
      eip := Wrap32(eip + 1);
      operandSize16 := true;
      var op :- FetchCode8(0);
      if fuel == 0 {
        return Threw(EndlessPrefixes);
      }
      opbyte := op;
      :- Dispatch(fuel - 1);
      operandSize16 := false;
      return Completed;
    }

    method AddressOverride(fuel: nat) returns (e: Status)
      requires Valid()
      modifies this, regs32
      ensures Reaches(Isa.AddressOverride(old(State()), fuel), e)
      decreases fuel, 0
    {
      hide ReadCode8, Isa.Dispatch;
      eip := Wrap32(eip + 1);
      addressSize16 := true;
      var op :- FetchCode8(0);
      if fuel == 0 {
        return Threw(EndlessPrefixes);
      }
      opbyte := op;
      :- Dispatch(fuel - 1);
      addressSize16 := false;
      return Completed;
    }

    method Cycle() returns (e: Status)
      requires Valid()
      modifies this, regs32
      ensures Reaches(Isa.Cycle(old(State())), e)
    {
      hide ReadCode8, Isa.Dispatch;
      beginEip := eip;
      var op :- FetchCode8(0);
      opbyte := op;
      :- Dispatch(Isa.ADDRESSES);
      eip := Wrap32(eip + 1);
      gasUsed := gasUsed + 1;
      return Completed;
    }

    method Exec(cyclecount: int) returns (e: Status)
      requires Valid()
      modifies this, regs32
      ensures Reaches(Isa.Exec(old(State()), cyclecount), e)
    {
      hide Isa.Cycle;
      var i := 0;
      while i < cyclecount
        invariant Isa.Exec(State(), cyclecount - i) == Isa.Exec(old(State()), cyclecount)
        decreases cyclecount - i
      {
        if gasLimit != 0 && gasUsed > gasLimit {
          return Completed;
        }
        :- Cycle();
        if doStop {
          doStop := false;
          return Completed;
        }
        i := i + 1;
      }
      return Completed;
    }
  }

  /** Multiplies magnitudes and puts the sign back: the two halves, read as one signed number, are the exact
      product of the operands read as signed numbers. */
  method SignedProduct(x: uint32, y: uint32, size16: bool) returns (high: uint32, low: uint32, overflow: bool)
    requires x < Modulus(size16) && y < Modulus(size16)
    ensures high < Modulus(size16) && low < Modulus(size16)
    ensures
      var m := Modulus(size16);
      var product := Signed(x, m) * Signed(y, m);
      Signed(high * m + low, m * m) == product && (overflow <==> Abs(product) >= m)
  {
    ImulExact(x, y, size16);
    var m := Modulus(size16);
    var (a, store1) := Unsign(x, m);
    var (b, store2) := Unsign(y, m);
    ProductBound(a, b, m);
    var result: nat := a * b;
    overflow := High(result, size16) > 0;
    result := Resign(result, store1 != store2, m * m);
    high := High(result, size16);
    low := Low(result, size16);
    assert (high, low, overflow) == Imul(x, y, size16);
  }

  /** Divides magnitudes and puts the sign back on the quotient: a fault when there is no quotient or its
      magnitude does not fit, else the truncated quotient modulo the size and the remainder of the magnitudes. */
  method SignedQuotient(high: uint32, low: uint32, d: uint32, size16: bool) returns (r: Division)
    requires high < Modulus(size16) && low < Modulus(size16) && d < Modulus(size16)
    ensures
      var m := Modulus(size16);
      var x, y := Signed(high * m + low, m * m), Signed(d, m);
      && (r.DivideFault? <==> d == 0 || Abs(x) / Abs(y) >= m)
      && (r.Divided? ==>
            && r.quotient == (if TruncDiv(x, y) < 0 then TruncDiv(x, y) + m else TruncDiv(x, y))
            && r.remainder == Abs(x) % Abs(y))
  {
    IdivMeaning(high, low, d, size16);
    if d == 0 {
      return DivideFault;
    }
    var m := Modulus(size16);
    var (tmp, store1) := Unsign(d, m);
    var (tmp2, store2) := Unsign(high * m + low, m * m);
    QuotientBound(tmp2, tmp);
    if tmp2 / tmp > m - 1 {
      return DivideFault;
    }
    return Divided(Resign(tmp2 / tmp, store1 != store2, m), tmp2 % tmp);
  }
}
