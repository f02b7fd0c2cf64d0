/**
  What the arithmetic instructions do over runs: a program of ADD and ADC adds big integers, a CMP
  and a conditional jump branch on the order of their operands, IMUL and IDIV leave products and
  quotients in the register pair.
*/
module AluRuns {
  import opened Words
  import opened FlatMemory
  import opened Arithmetic
  import opened ArithmeticLaws
  import opened CpuState
  import opened ModRm
  import opened Isa
  import opened PrefixChains
  import opened ExecLaws

  // ----- One instruction with a register and a ModRM operand -----

  /** `t` is about to run a handler with a ModRM operand whose value is `v`. */
  ghost predicate Operates(t: Cpu, m: Operand, v: uint32) {
    Decode(t) == Ok(Decoded(Skip(t, 1), m)) && RmRead(Skip(t, 1), m) == Ok(v)
  }

  lemma OperandFits(t: Cpu, m: Operand, v: uint32)
    requires RmRead(t, m) == Ok(v)
    ensures v < Modulus(t.operandSize16)
  {
    hide Address, Mapped;
    if m.mod != 3 {
      var a := Address(t, m).value;
      GetBound(t.memory, a, OperandSize(t));
      Pow256Values();
    }
  }

  /** `op r, r/m` combines the register, on the left, with the operand, on the right. */
  lemma AluRRmCombines(t: Cpu, m: Operand, op: AluOp, v: uint32)
    requires Operates(t, m, v)
    ensures AluRRm(t, op).Ok?
    ensures
      var u := AluRRm(t, op).value;
      var o := Alu(op, t.freg, Reg(t, m.extra), v, t.operandSize16);
      && u.freg == o.freg && u.memory == t.memory
      && u.operandSize16 == t.operandSize16 && u.addressSize16 == t.addressSize16
      && u.regs == if op == CmpOp then t.regs else SetReg(t, m.extra, o.value).regs
  {
    hide Decode, RmRead, Alu, Length, LowHalf;
  }

  // ----- INC and DEC of an operand in memory -----

  /** The operand is a register or a writable place in memory. */
  ghost predicate Assignable(s: Cpu, m: Operand) {
    m.mod == 3 || (Address(s, m).Ok? && Writable(s.memory, Address(s, m).value, OperandSize(s)))
  }

  /** The state that an instruction leaves, completed or not. */
  ghost function Left(r: Step): Cpu {
    match r
    case Ok(t) => t
    case Fault(t, _) => t
  }

  /** INC leaves CF as it was exactly when its operand can be assigned or the carry of the adder is CF anyway:
      a refused write leaves that carry in CF, with the one put aside still in the reserved bit. */
  lemma IncRmCarry(s: Cpu, m: Operand, v: uint32)
    requires RmRead(s, m) == Ok(v)
    ensures IncRm(s, m).Ok? <==> Assignable(s, m)
    ensures Left(IncRm(s, m)).freg.cf == s.freg.cf <==> Assignable(s, m) || s.freg.cf == (v == Modulus(s.operandSize16) - 1)
    ensures IncRm(s, m).Fault? ==>
              var u := IncRm(s, m).at;
              (u.freg.cf <==> v == Modulus(s.operandSize16) - 1) && u.freg.r0 == s.freg.cf && u.memory == s.memory
  {
    hide RmRead, RmWrite, Add, Assignable;
    var t := s.(freg := s.freg.(r0 := s.freg.cf));
    SameOperand(s, t, m);
    OperandFits(s, m, v);
    CountCarries(t.freg, v, s.operandSize16);
    var r := Add(t.freg, v, 1, s.operandSize16);
    WriteKeepsFlags(s, t.(freg := r.freg), m, r.value);
  }

  /** DEC, likewise, with the borrow. */
  lemma DecRmCarry(s: Cpu, m: Operand, v: uint32)
    requires RmRead(s, m) == Ok(v)
    ensures DecRm(s, m).Ok? <==> Assignable(s, m)
    ensures Left(DecRm(s, m)).freg.cf == s.freg.cf <==> Assignable(s, m) || s.freg.cf == (v == 0)
    ensures DecRm(s, m).Fault? ==>
              var u := DecRm(s, m).at;
              (u.freg.cf <==> v == 0) && u.freg.r0 == s.freg.cf && u.memory == s.memory
  {
    hide RmRead, RmWrite, Sub, Assignable;
    var t := s.(freg := s.freg.(r0 := s.freg.cf));
    SameOperand(s, t, m);
    OperandFits(s, m, v);
    CountCarries(t.freg, v, s.operandSize16);
    var r := Sub(t.freg, v, 1, s.operandSize16);
    WriteKeepsFlags(s, t.(freg := r.freg), m, r.value);
  }

  /** EAX points at a zero in read-only memory. */
  ghost function OverRom(s: Cpu, cf: bool): Cpu {
    s.(regs := s.regs[EAX := 0], freg := s.freg.(cf := cf), operandSize16 := false, addressSize16 := false,
       memory := Zeros(0, 4).(rom := {0, 1, 2, 3}))
  }

  /** INC [EAX] of a read-only zero clears a set CF, DEC [EAX] sets a clear one. */
  lemma RefusedCountFails(s: Cpu)
    ensures
      var m := Operand(0, 0, EAX, 0, 0, 0);
      && IncRm(OverRom(s, true), m).Fault? && !IncRm(OverRom(s, true), m).at.freg.cf
      && DecRm(OverRom(s, false), m).Fault? && DecRm(OverRom(s, false), m).at.freg.cf
  {
    hide IncRm, DecRm, Get;
    var t, u, m := OverRom(s, true), OverRom(s, false), Operand(0, 0, EAX, 0, 0, 0);
    SmallWord(t.memory, 0, 0);
    IncRmCarry(t, m, 0);
    DecRmCarry(u, m, 0);
    assert 0 in t.memory.bytes && 0 in t.memory.rom;
  }

  lemma CountCarries(f: Flags, v: uint32, size16: bool)
    requires v < Modulus(size16)
    ensures
      var a, b := Add(f, v, 1, size16).freg, Sub(f, v, 1, size16).freg;
      && (a.cf <==> v == Modulus(size16) - 1) && a.r0 == f.r0
      && (b.cf <==> v == 0) && b.r0 == f.r0
  {
    hide EvenParity, Overflow, Sign;
    TruncateSmall(v, size16);
    SumExact(v, 1, size16);
  }

  lemma SameOperand(s: Cpu, t: Cpu, m: Operand)
    requires t == s.(freg := t.freg)
    ensures RmRead(s, m).Ok? ==> RmRead(t, m) == RmRead(s, m)
  {
    hide Get, Mapped, Disp16, Disp32;
    SameDisp16(s, t, m);
    SameDisp32(s, t, m);
  }

  lemma SameDisp16(s: Cpu, t: Cpu, m: Operand)
    requires t == s.(freg := t.freg)
    ensures Disp16(s, m).Ok? ==> Disp16(t, m) == Disp16(s, m)
  {
    hide Get, Mapped;
  }

  lemma SameDisp32(s: Cpu, t: Cpu, m: Operand)
    requires t == s.(freg := t.freg)
    ensures Disp32(s, m).Ok? ==> Disp32(t, m) == Disp32(s, m)
  {
    hide Get, Mapped;
  }

  lemma WriteKeepsFlags(s: Cpu, t: Cpu, m: Operand, v: uint32)
    requires RmRead(s, m).Ok? && t == s.(freg := t.freg)
    ensures RmWrite(t, m, v).Ok? <==> Assignable(s, m)
    ensures Left(RmWrite(t, m, v)).freg == t.freg
    ensures RmWrite(t, m, v).Fault? ==> RmWrite(t, m, v).at.memory == s.memory
  {
    hide Put, Writable, Get, Mapped, Disp16, Disp32;
    SameDisp16(s, t, m);
    SameDisp32(s, t, m);
  }

  // ----- Long addition as a program -----

  /** What an unprefixed instruction in 32-bit mode contributes to a long addition: ADC r, r/m adds a limb,
      INC r and DEC r count. */
  datatype Doing = Adds(m: Operand, base: uint32, adder: uint32) | Counts(i: RegisterIndex, up: bool) | Other

  ghost function Limbs(s: Cpu, op: uint8): Doing {
    match Decode(Begun(s, op))
    case Fault(_, _) => Other
    case Ok(d) =>
      match RmRead(d.cpu, d.rm)
      case Fault(_, _) => Other
      case Ok(v) => Adds(d.rm, s.regs[d.rm.extra], v)
  }

  ghost function DoingAt(s: Cpu): Doing {
    match CodeByte(s, 0)
    case Fault(_, _) => Other
    case Ok(op) =>
      if op == 0x13 then Limbs(s, op)
      else if 0x40 <= op < 0x48 then Counts(op - 0x40, true)
      else if 0x48 <= op < 0x50 then Counts(op - 0x48, false)
      else Other
  }

  lemma LimbsOperate(s: Cpu, op: uint8)
    requires Limbs(s, op).Adds?
    ensures Operates(Begun(s, op), Limbs(s, op).m, Limbs(s, op).adder)
  {
    hide RmRead;
  }

  /** An unprefixed `op r, r/m` in 32-bit mode. */
  lemma AluCycle(s: Cpu, code: uint8, op: AluOp)
    requires Flat(s) && CodeByte(s, 0) == Ok(code) && Limbs(s, code).Adds?
    requires (code, op) in {(0x03, AddOp), (0x13, AdcOp), (0x2B, SubOp)}
    ensures Cycle(s).Ok?
    ensures
      var l := Limbs(s, code);
      var o := Alu(op, s.freg, l.base, l.adder, false);
      Cycle(s).value.freg == o.freg && Cycle(s).value.regs == s.regs[l.m.extra := o.value]
  {
    hide Cycle, AluRRm, Limbs, RmRead, Decode, Alu;
    var t, l := Begun(s, code), Limbs(s, code);
    LimbsOperate(s, code);
    AluRRmCombines(t, l.m, op, l.adder);
    assert Basic(t) == AluRRm(t, op);
    LimbsBase(s, code);
    UnprefixedCycle(s, code);
  }

  lemma LimbsBase(s: Cpu, op: uint8)
    requires Limbs(s, op).Adds?
    ensures Limbs(s, op).base == s.regs[Limbs(s, op).m.extra]
  {
    hide RmRead, Decode;
  }

  lemma CountValue(f: Flags, v: uint32, up: bool)
    ensures Execute(f, Count(v, up), false).value == Wrap32(v as int + if up then 1 else -1)
    ensures Execute(f, Count(v, up), false).freg.cf == f.cf
  {
    hide AddFlags, SubFlags;
    IncDecKeepCarry(f, v, false);
  }

  /** INC and DEC by one, with the carry kept. */
  lemma CountCycle(s: Cpu)
    requires Flat(s) && DoingAt(s).Counts?
    ensures Cycle(s).Ok?
    ensures
      var d, u := DoingAt(s), Cycle(s).value;
      && u.regs == s.regs[d.i := Wrap32(s.regs[d.i] as int + if d.up then 1 else -1)]
      && u.freg == Execute(s.freg, Count(s.regs[d.i], d.up), false).freg
      && u.freg.cf == s.freg.cf && u.memory == s.memory
  {
    hide Cycle, CodeByte, Inc, Dec;
    var op := CodeByte(s, 0).value;
    CountValue(s.freg, s.regs[DoingAt(s).i], DoingAt(s).up);
    var t := Begun(s, op);
    assert Basic(t).Ok?;
    UnprefixedCycle(s, op);
  }

  /** A run in which every instruction but the counting and adding ones leaves CF alone. */
  ghost predicate AddingRun(s: Cpu, n: nat)
    decreases n
  {
    hide Cycle, DoingAt;
    n > 0 ==>
      && Cycle(s).Ok? && (DoingAt(s).Other? ==> Cycle(s).value.freg.cf == s.freg.cf)
      && AddingRun(Cycle(s).value, n - 1)
  }

  /** The limbs that the run adds, with its INC and DEC between them. */
  ghost function Program(s: Cpu, n: nat): seq<LongOp>
    requires AddingRun(s, n)
    decreases n
  {
    hide Cycle, DoingAt;
    if n == 0 then []
    else
      (match DoingAt(s)
       case Adds(_, base, adder) => [Limb(base, adder)]
       case Counts(i, up) => [Count(s.regs[i], up)]
       case Other => []) + Program(Cycle(s).value, n - 1)
  }

  /** The sums, each as its instruction leaves it in the destination register. */
  ghost function Sums(s: Cpu, n: nat): seq<uint32>
    requires AddingRun(s, n)
    decreases n
  {
    hide Cycle, DoingAt;
    if n == 0 then []
    else
      (if DoingAt(s).Adds? then [Cycle(s).value.regs[DoingAt(s).m.extra]] else []) + Sums(Cycle(s).value, n - 1)
  }

  lemma ExecuteCarry(f: Flags, g: Flags, op: LongOp)
    requires f.cf == g.cf
    ensures Execute(f, op, false).value == Execute(g, op, false).value
    ensures Execute(f, op, false).freg.cf == Execute(g, op, false).freg.cf
  {
    hide Inc, Dec, Add;
    match op
    case Limb(b, a) => AddCarry(f, g, b, Wrap32(a + if f.cf then 1 else 0));
    case Count(v, up) =>
      CountValue(f, v, up);
      CountValue(g, v, up);
  }

  lemma AddCarry(f: Flags, g: Flags, b: uint32, a: uint32)
    ensures Add(f, b, a, false).value == Add(g, b, a, false).value
    ensures Add(f, b, a, false).freg.cf == Add(g, b, a, false).freg.cf
  {
    hide Sum, CarryOut, EvenParity, Overflow, Sign;
  }

  /** A long addition sees nothing of the flags but the carry. */
  lemma {:induction false} OnlyCarryMatters(f: Flags, g: Flags, ops: seq<LongOp>)
    requires f.cf == g.cf
    ensures LongAdd(f, ops, false).0 == LongAdd(g, ops, false).0
    ensures LongAdd(f, ops, false).1.cf == LongAdd(g, ops, false).1.cf
    ensures CarryMeetsAllOnes(f, ops, false) == CarryMeetsAllOnes(g, ops, false)
    decreases |ops|
  {
    hide Execute;
    if ops != [] {
      ExecuteCarry(f, g, ops[0]);
      OnlyCarryMatters(Execute(f, ops[0], false).freg, Execute(g, ops[0], false).freg, ops[1..]);
    }
  }

  lemma LongAddCons(f: Flags, op: LongOp, rest: seq<LongOp>)
    ensures
      var o := Execute(f, op, false);
      var r := LongAdd(o.freg, rest, false);
      LongAdd(f, [op] + rest, false) == ((if op.Limb? then [o.value] else []) + r.0, r.1)
  {
    hide Execute;
    var ops := [op] + rest;
    assert ops[0] == op && ops[1..] == rest;
    var r := LongAdd(Execute(f, op, false).freg, rest, false);
    assert [] + r.0 == r.0;
  }

  lemma {:induction false} RunAddsLimbs(s: Cpu, n: nat)
    requires Flat(s) && AddingRun(s, n)
    ensures Run(s, n).Ok?
    ensures
      var r := LongAdd(s.freg, Program(s, n), false);
      Sums(s, n) == r.0 && Run(s, n).value.freg.cf == r.1.cf
    decreases n
  {
    hide Cycle, DoingAt, Execute, LongAdd;
    if n == 0 {
      NoLimbs(s.freg);
    } else {
      var u := Cycle(s).value;
      CycleKeeps(s);
      RunAddsLimbs(u, n - 1);
      var rest := Program(u, n - 1);
      match DoingAt(s)
      case Adds(m, base, adder) =>
        AdcCycle(s);
        LongAddCons(s.freg, Limb(base, adder), rest);
      case Counts(i, up) =>
        CountCycle(s);
        LongAddCons(s.freg, Count(s.regs[i], up), rest);
        assert [Count(s.regs[i], up)] + rest == Program(s, n);
      case Other =>
        OnlyCarryMatters(s.freg, u.freg, rest);
        assert [] + rest == rest;
    }
  }

  lemma NoLimbs(f: Flags)
    ensures LongAdd(f, [], false) == ([], f)
  {
  }

  lemma AdcCycle(s: Cpu)
    requires Flat(s) && DoingAt(s).Adds?
    ensures Cycle(s).Ok?
    ensures
      var d, u := DoingAt(s), Cycle(s).value;
      var o := Execute(s.freg, Limb(d.base, d.adder), false);
      u.freg == o.freg && u.regs[d.m.extra] == o.value
  {
    hide Cycle, Limbs, CodeByte, Adc;
    AluCycle(s, 0x13, AdcOp);
  }

  /** A program that starts with ADD r, r/m and goes on with `n` instructions of a run adds two numbers,
      limb by limb: the sums and the final CF are the exact big-integer sum if and only if no ADC adds all
      ones while CF is set. */
  lemma ProgramAdds(s: Cpu, n: nat)
    requires Flat(s) && CodeByte(s, 0) == Ok(0x03) && Limbs(s, 0x03).Adds?
    requires Cycle(s).Ok? && AddingRun(Cycle(s).value, n)
    ensures Run(s, n + 1).Ok?
    ensures
      var t, l := Cycle(s).value, Limbs(s, 0x03);
      var ops, m := Program(t, n), 0x1_0000_0000;
      var sums := [t.regs[l.m.extra]] + Sums(t, n);
      Value(sums, m) + Num(Run(s, n + 1).value.freg.cf) * Power(m, |sums|)
        == Value([l.base] + Bases(ops), m) + Value([l.adder] + Adders(ops), m)
      <==> !CarryMeetsAllOnes(t.freg, ops, false)
  {
    hide Cycle, Limbs, CodeByte, Sums, Program, LongAdd, Execute, Value, Power, Adc;
    var t, l := Cycle(s).value, Limbs(s, 0x03);
    var f, first, rest := s.freg.(cf := false), Limb(l.base, l.adder), Program(t, n);
    CycleKeeps(s);
    AluCycle(s, 0x03, AddOp);
    AddIsFirst(s.freg, l.base, l.adder);
    RunAddsLimbs(t, n);
    OnlyCarryMatters(t.freg, Execute(f, first, false).freg, rest);
    LongAddCons(f, first, rest);
    ProgramFits(t, n);
    LongAddExact(f, [first] + rest, false);
    FirstLimb(f, first, rest);
  }

  /** ADD is ADC without a carry. */
  lemma AddIsFirst(f: Flags, b: uint32, a: uint32)
    ensures Execute(f.(cf := false), Limb(b, a), false).value == Add(f, b, a, false).value
    ensures Execute(f.(cf := false), Limb(b, a), false).freg.cf == Add(f, b, a, false).freg.cf
  {
    hide Add;
    AddCarry(f.(cf := false), f, b, Wrap32(a + 0));
  }

  lemma ProgramFits(s: Cpu, n: nat)
    requires AddingRun(s, n)
    ensures Sized(Program(s, n), false)
  {
    hide Program;
  }

  lemma FirstLimb(f: Flags, first: LongOp, rest: seq<LongOp>)
    requires first.Limb? && !f.cf
    ensures Bases([first] + rest) == [first.b] + Bases(rest) && Adders([first] + rest) == [first.a] + Adders(rest)
    ensures CarryMeetsAllOnes(f, [first] + rest, false) == CarryMeetsAllOnes(Execute(f, first, false).freg, rest, false)
  {
    hide Execute;
    var ops := [first] + rest;
    assert ops[0] == first && ops[1..] == rest;
  }
}
