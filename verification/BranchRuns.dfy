/** A comparison and the conditional jump after it: which way the pair goes, and where. */
module BranchRuns {
  import opened Words
  import opened FlatMemory
  import opened Arithmetic
  import opened ArithmeticLaws
  import FlagLaws
  import opened CpuState
  import opened ModRm
  import opened Isa
  import opened PrefixChains
  import opened AluRuns

  const CMP := 0x3B
  const CMP_IMM := 0x81
  const CMP_IMM8 := 0x83

  // ----- The two instructions -----

  /** CMP r, r/m: the register `a` against the operand `b`. */
  ghost predicate ComparesOperand(s: Cpu, ps: seq<uint8>, a: uint32, b: uint32) {
    && Prefixed(s, ps, CMP)
    && var t := Started(s, ps, CMP);
       && Decode(t).Ok?
       && Operates(t, Decode(t).value.rm, b) && a == Reg(t, Decode(t).value.rm.extra)
  }

  /** CMP r/m, imm: the operand `a` against the immediate `b`, a byte being sign-extended. */
  ghost predicate ComparesImmediate(s: Cpu, ps: seq<uint8>, op: uint8, a: uint32, b: uint32) {
    && (op == CMP_IMM || op == CMP_IMM8) && Prefixed(s, ps, op)
    && var t := Started(s, ps, op);
       && Decode(t).Ok?
       && var m, size := Decode(t).value.rm, if op == CMP_IMM8 then 1 else OperandSize(t);
          var imm := RmImmediate(Skip(t, 1), m, size);
          && Operates(t, m, a) && m.extra == 7 && imm.Ok?
          && b == Truncate(if size == 1 then SignExtend(imm.value, 0x100) else imm.value, t.operandSize16)
  }

  /** A comparison of `a` with `b` is at `s` after the prefixes `ps`. */
  ghost predicate Compares(s: Cpu, ps: seq<uint8>, a: uint32, b: uint32) {
    || ComparesOperand(s, ps, a, b)
    || ComparesImmediate(s, ps, CMP_IMM, a, b)
    || ComparesImmediate(s, ps, CMP_IMM8, a, b)
  }

  /** What a comparison leaves: the flags of `a` minus `b`, and nothing else but `eip`. */
  ghost predicate Compared(s: Cpu, u: Cpu, a: uint32, b: uint32, size16: bool) {
    && a < Modulus(size16) && b < Modulus(size16)
    && u.freg == Sub(s.freg, a, b, size16).freg
    && u.regs == s.regs && u.memory == s.memory && Flat(u)
  }

  lemma OperandCycle(s: Cpu, ps: seq<uint8>, a: uint32, b: uint32)
    requires ComparesOperand(s, ps, a, b)
    ensures Cycle(s).Ok? && Compared(s, Cycle(s).value, a, b, OPERAND_SIZE in ps)
  {
    hide Cycle, AluRRm, Operates, Sub;
    var t := Started(s, ps, CMP);
    var m := Decode(t).value.rm;
    PrefixedCycle(s, ps, CMP);
    AluRRmCombines(t, m, CmpOp, b);
    OperatesFits(t, m, b);
    assert Handler(t) == AluRRm(t, CmpOp);
  }

  lemma ImmediateCycle(s: Cpu, ps: seq<uint8>, op: uint8, a: uint32, b: uint32)
    requires ComparesImmediate(s, ps, op, a, b)
    ensures Cycle(s).Ok? && Compared(s, Cycle(s).value, a, b, OPERAND_SIZE in ps)
  {
    hide Cycle, Operates, Sub, RmImmediate, AluGroup, Decode, SignExtend;
    var t := Started(s, ps, op);
    var m, size := Decode(t).value.rm, if op == CMP_IMM8 then 1 else OperandSize(t);
    PrefixedCycle(s, ps, op);
    OperatesFits(t, m, a);
    GroupCompares(t, m, a, size);
    assert Handler(t) == AluGroup(t, size);
  }

  /** The group handlers with the CMP extension. */
  lemma GroupCompares(t: Cpu, m: Operand, a: uint32, size: nat)
    requires size in {1, 2, 4} && Operates(t, m, a) && m.extra == 7
    requires RmImmediate(Skip(t, 1), m, size).Ok?
    ensures AluGroup(t, size).Ok?
    ensures
      var u, imm := AluGroup(t, size).value, RmImmediate(Skip(t, 1), m, size).value;
      var b := Truncate(if size == 1 then SignExtend(imm, 0x100) else imm, t.operandSize16);
      && u.freg == Sub(t.freg, a, b, t.operandSize16).freg && u.regs == t.regs && u.memory == t.memory
      && u.operandSize16 == t.operandSize16 && u.addressSize16 == t.addressSize16
  {
    hide Decode, RmRead, RmImmediate, Sub, Length, SignExtend;
    var s, imm := Skip(t, 1), RmImmediate(Skip(t, 1), m, size).value;
    var operand := if size == 1 then Wrap32(SignExtend(imm, 0x100)) else imm;
    SubTruncates(t.freg, a, if size == 1 then SignExtend(imm, 0x100) else imm, t.operandSize16);
    assert AluRmImm(s, m, CmpOp, size) == Ok(Skip(s.(freg := Sub(s.freg, a, operand, s.operandSize16).freg), size));
  }

  lemma SubTruncates(f: Flags, a: uint32, x: int, size16: bool)
    ensures Sub(f, a, Wrap32(x), size16) == Sub(f, a, Truncate(x, size16), size16)
  {
    hide SubFlags;
    if size16 {
      NarrowTwice(x);
    }
  }

  /** A comparison at either operand size, in any of its forms and with any size prefixes. */
  lemma CompareCycle(s: Cpu, ps: seq<uint8>, a: uint32, b: uint32)
    requires Compares(s, ps, a, b)
    ensures Cycle(s).Ok? && Compared(s, Cycle(s).value, a, b, OPERAND_SIZE in ps)
  {
    hide Cycle, ComparesOperand, ComparesImmediate, Compared;
    if ComparesOperand(s, ps, a, b) {
      OperandCycle(s, ps, a, b);
    } else {
      ImmediateCycle(s, ps, if ComparesImmediate(s, ps, CMP_IMM, a, b) then CMP_IMM else CMP_IMM8, a, b);
    }
  }

  /** The signed displacement of a short or near jump, and how many bytes it follows the opcode with. */
  datatype Jump = Jump(disp: int, size: nat)

  /** Where a jump by `j.disp` goes from the end of its instruction; at 16 bits the target is truncated. */
  function Target(next: uint32, j: Jump, low: bool): uint32 {
    if low then Wrap16(Wrap32(next + j.disp)) else Wrap32(next + j.disp)
  }

  /** A short Jcc is at `s` after the prefixes `ps`. */
  ghost predicate ShortJcc(s: Cpu, ps: seq<uint8>, condition: nat, j: Jump) {
    && condition < 16 && Prefixed(s, ps, 0x70 + condition)
    && var rel := ReadCode8(Started(s, ps, 0x70 + condition), 1);
       rel.Ok? && j == Jump(SignExtend(rel.value, 0x100), 1)
  }

  /** A near Jcc, two opcode bytes long. */
  ghost predicate NearJcc(s: Cpu, ps: seq<uint8>, condition: nat, j: Jump) {
    && condition < 16 && Prefixed(s, ps, 0x0F)
    && var t := Started(s, ps, 0x0F);
       var rel := ReadCodeW(Skip(t, 1), 1);
       && ReadCode8(Skip(t, 1), 0) == Ok((0x80 + condition) as uint8)
       && rel.Ok? && j == Jump(SignExtend(Truncate(rel.value, t.operandSize16), Modulus(t.operandSize16)), OperandSize(t) + 1)
  }

  ghost predicate JccAt(s: Cpu, ps: seq<uint8>, condition: nat, j: Jump) {
    ShortJcc(s, ps, condition, j) || NearJcc(s, ps, condition, j)
  }

  /** Past the prefixes, the opcode and the displacement. */
  function Following(s: Cpu, ps: seq<uint8>, j: Jump): uint32 { Wrap32(s.eip + |ps| + 1 + j.size) }

  lemma JumpHandler(t: Cpu, r: Cpu, d: nat, off: uint32, n: nat)
    requires r == JmpNear(Skip(t, d), off, n)
    ensures Skip(Skip(r, -1), 1).eip == r.eip
    ensures r.eip == W(t, Wrap32(Wrap32(t.eip + d) + SignExtend(off, n)))
  {
    WrapAdd(r.eip as int - 1, 1);
  }

  lemma ShortJccCycle(s: Cpu, ps: seq<uint8>, condition: nat, j: Jump)
    requires ShortJcc(s, ps, condition, j)
    ensures Cycle(s).Ok?
    ensures
      var u, next := Cycle(s).value, Following(s, ps, j);
      && u.eip == (if Jcc(condition, s.freg) then Target(next, j, OPERAND_SIZE in ps) else next)
      && u.regs == s.regs && u.memory == s.memory && u.freg == s.freg
  {
    hide Cycle, Jcc, ReadCode8, JccRel8, Handler, Target, SignExtend, Wrap32;
    var op := 0x70 + condition;
    var t := Started(s, ps, op);
    PrefixedCycle(s, ps, op);
    ShortHandler(t, condition, j);
    WrapAdd(s.eip + |ps|, 2);
    WrapAdd(s.eip + |ps|, 1);
    WrapAdd(s.eip + |ps| + 1, 1);
  }

  lemma ShortHandler(t: Cpu, condition: nat, j: Jump)
    requires condition < 16 && t.opbyte == 0x70 + condition
    requires ReadCode8(t, 1).Ok? && j.disp == SignExtend(ReadCode8(t, 1).value, 0x100)
    ensures Handler(t).Ok?
    ensures
      Skip(Handler(t).value, 1) ==
      t.(eip := if Jcc(condition, t.freg) then Target(Wrap32(t.eip + 2), j, t.operandSize16) else Wrap32(Wrap32(t.eip + 1) + 1))
  {
    hide Jcc, ReadCode8, SignExtend;
    assert Handler(t) == JccRel8(t, condition);
    var rel := ReadCode8(t, 1).value;
    JumpHandler(t, JmpNear(Skip(t, 2), rel, 0x100), 2, rel, 0x100);
  }

  lemma TwoByteJcc(t: Cpu, condition: nat)
    requires condition < 16 && t.opbyte == 0x0F && ReadCode8(Skip(t, 1), 0) == Ok((0x80 + condition) as uint8)
    ensures Handler(t) == JccRelW(Skip(t, 1).(opbyte := 0x80 + condition), condition)
  {
    hide JccRelW, ReadCode8;
  }

  lemma NearJccCycle(s: Cpu, ps: seq<uint8>, condition: nat, j: Jump)
    requires NearJcc(s, ps, condition, j)
    ensures Cycle(s).Ok?
    ensures
      var u, next := Cycle(s).value, Following(s, ps, j);
      && u.eip == (if Jcc(condition, s.freg) then Target(next, j, OPERAND_SIZE in ps) else next)
      && u.regs == s.regs && u.memory == s.memory && u.freg == s.freg
  {
    hide Cycle, Jcc, Get, Mapped, JccRelW, Handler, Target, SignExtend;
    var t := Started(s, ps, 0x0F);
    PrefixedCycle(s, ps, 0x0F);
    var v := Skip(t, 1).(opbyte := 0x80 + condition);
    TwoByteJcc(t, condition);
    NearHandler(v, condition, j);
    var x, n := s.eip + |ps|, OperandSize(t);
    WrapAdd(x, 1);
    WrapAdd(x + 1, n + 1);
    WrapAdd(x + 1, n);
    WrapAdd(x + 1 + n, 1);
  }

  /** The handler of a near Jcc, with `eip` on its second byte. */
  lemma NearHandler(v: Cpu, condition: nat, j: Jump)
    requires condition < 16 && ReadCodeW(v, 1).Ok?
    requires j.disp == SignExtend(Truncate(ReadCodeW(v, 1).value, v.operandSize16), Modulus(v.operandSize16))
    ensures JccRelW(v, condition).Ok?
    ensures
      var u, n := Skip(JccRelW(v, condition).value, 1), OperandSize(v);
      && u.eip == (if Jcc(condition, v.freg) then Target(Wrap32(v.eip + n + 1), j, v.operandSize16)
                   else Wrap32(Wrap32(v.eip + n) + 1))
      && u.regs == v.regs && u.memory == v.memory && u.freg == v.freg
      && u.operandSize16 == v.operandSize16 && u.addressSize16 == v.addressSize16
  {
    hide Jcc, Read, JmpNearW, SignExtend, Wrap32, Target;
    NearTaken(v, ReadCodeW(v, 1).value, j);
  }

  /** The two adjustments after a taken jump cancel. */
  lemma NearTaken(v: Cpu, rel: uint32, j: Jump)
    requires j.disp == SignExtend(Truncate(rel, v.operandSize16), Modulus(v.operandSize16))
    ensures
      var n := OperandSize(v);
      Skip(Skip(JmpNearW(Skip(v, n + 1), rel), -1), 1)
        == v.(eip := Target(Wrap32(v.eip + n + 1), j, v.operandSize16))
  {
    hide SignExtend;
    var n, off := OperandSize(v), Truncate(rel, v.operandSize16);
    JumpHandler(v, JmpNear(Skip(v, n + 1), off, Modulus(v.operandSize16)), n + 1, off, Modulus(v.operandSize16));
  }

  const JMP := 0xE9
  const CALL := 0xE8

  /** A near JMP or CALL is at `s` after the prefixes `ps`. */
  ghost predicate NearJump(s: Cpu, ps: seq<uint8>, op: uint8, j: Jump) {
    && (op == JMP || op == CALL) && Prefixed(s, ps, op)
    && var t := Started(s, ps, op);
       var rel := ReadCodeW(t, 1);
       rel.Ok? && j == Jump(SignExtend(Truncate(rel.value, t.operandSize16), Modulus(t.operandSize16)), OperandSize(t))
  }

  /** JMP and CALL go to the same place, the end of the instruction plus the signed displacement. */
  lemma NearJumpCycle(s: Cpu, ps: seq<uint8>, op: uint8, j: Jump)
    requires NearJump(s, ps, op, j)
    ensures op == JMP ==> Cycle(s).Ok?
    ensures Cycle(s).Ok? ==> Cycle(s).value.eip == Target(Following(s, ps, j), j, OPERAND_SIZE in ps)
    ensures op == JMP ==>
              Cycle(s).value.regs == s.regs && Cycle(s).value.memory == s.memory && Cycle(s).value.freg == s.freg
  {
    hide Cycle, Push, Handler, ReadCode, JmpNearW, Target, SignExtend, Wrap32;
    var t := Started(s, ps, op);
    PrefixedCycle(s, ps, op);
    NearHandlers(t);
    var n, rel := OperandSize(t), ReadCodeW(t, 1).value;
    NearTaken(t, rel, j);
    WrapAdd(s.eip + |ps|, n + 1);
    var u := Skip(t, n + 1);
    PushKeepsCode(u, u.eip);
    if op == CALL && Push(u, u.eip).Ok? {
      SameJump(Push(u, u.eip).value, u, rel);
    }
  }

  lemma NearHandlers(t: Cpu)
    ensures t.opbyte == JMP ==> Handler(t) == JmpRelW(t)
    ensures t.opbyte == CALL ==> Handler(t) == CallRelW(t)
  {
    hide JmpRelW, CallRelW;
  }

  lemma PushKeepsCode(u: Cpu, v: uint32)
    ensures Push(u, v).Ok? ==> Push(u, v).value.eip == u.eip && Push(u, v).value.operandSize16 == u.operandSize16
  {
    hide Put, Writable;
  }

  lemma SameJump(t: Cpu, u: Cpu, rel: uint32)
    requires t.eip == u.eip && t.operandSize16 == u.operandSize16
    ensures JmpNearW(t, rel).eip == JmpNearW(u, rel).eip
  {
  }

  // ----- The pair -----

  /** What the sixteen mnemonics promise after a comparison of `a` with `b`: its order, or a flag of the difference. */
  predicate Ordered(condition: nat, a: uint32, b: uint32, size16: bool)
    requires condition < 16
  {
    var m := Modulus(size16);
    var r := (a as int - b as int) % m;
    match condition
    case 0 => FlagLaws.Overflows(Signed(a, m) - Signed(b, m), size16)
    case 1 => !FlagLaws.Overflows(Signed(a, m) - Signed(b, m), size16)
    case 8 => Signed(r, m) < 0
    case 9 => Signed(r, m) >= 0
    case 10 => FlagLaws.EvenOnes(r % 0x100)
    case 11 => !FlagLaws.EvenOnes(r % 0x100)
    case 2 => a < b
    case 3 => a >= b
    case 4 => a == b
    case 5 => a != b
    case 6 => a <= b
    case 7 => a > b
    case 12 => Signed(a, m) < Signed(b, m)
    case 13 => Signed(a, m) >= Signed(b, m)
    case 14 => Signed(a, m) <= Signed(b, m)
    case _ => Signed(a, m) > Signed(b, m)
  }

  /** A comparison of `a` with `b` and the next instruction, a Jcc: the pair goes where the condition sends it, by the
      order of the operands or a flag of the difference: always for the unsigned, equality, sign and parity
      conditions, for the signed ones and overflow if and only if bit 7 decides the overflow as the sign bits would,
      or, for LE and G, the operands are equal (or both ways lead to the same place). */
  lemma CompareThenBranch(s: Cpu, ps: seq<uint8>, a: uint32, b: uint32, qs: seq<uint8>, condition: nat, j: Jump)
    requires Compares(s, ps, a, b) && condition < 16
    requires Cycle(s).Ok? ==> JccAt(Cycle(s).value, qs, condition, j)
    ensures Run(s, 2).Ok?
    ensures
      var low, u := OPERAND_SIZE in ps, Run(s, 2).value;
      var next := Following(Cycle(s).value, qs, j);
      && u.regs == s.regs && u.memory == s.memory
      && (u.eip == (if Ordered(condition, a, b, low) then Target(next, j, OPERAND_SIZE in qs) else next) <==>
            2 <= condition < 12 || Bit7Decides(a, b, low) || (condition >= 14 && a == b)
            || Target(next, j, OPERAND_SIZE in qs) == next)
  {
    hide Cycle, Compares, Sub, Jcc, JccAt, Bit7Decides, Signed, Target, FlagLaws.EvenOnes, FlagLaws.Overflows;
    var low := OPERAND_SIZE in ps;
    CompareCycle(s, ps, a, b);
    UnsignedConditions(s.freg, a, b, low);
    SignedConditions(s.freg, a, b, low);
    FlagLaws.FlagConditions(s.freg, a, b, low);
    JccCycle(Cycle(s).value, qs, condition, j);
    TwoSteps(s);
  }

  lemma JccCycle(s: Cpu, ps: seq<uint8>, condition: nat, j: Jump)
    requires condition < 16 && JccAt(s, ps, condition, j)
    ensures Cycle(s).Ok?
    ensures
      var u, next := Cycle(s).value, Following(s, ps, j);
      && u.eip == (if Jcc(condition, s.freg) then Target(next, j, OPERAND_SIZE in ps) else next)
      && u.regs == s.regs && u.memory == s.memory && u.freg == s.freg
  {
    hide Cycle, ShortJcc, NearJcc, Jcc;
    if ShortJcc(s, ps, condition, j) {
      ShortJccCycle(s, ps, condition, j);
    } else {
      NearJccCycle(s, ps, condition, j);
    }
  }

  lemma OperatesFits(t: Cpu, m: Operand, v: uint32)
    requires Operates(t, m, v)
    ensures v < Modulus(t.operandSize16) && Reg(t, m.extra) < Modulus(t.operandSize16)
  {
    OperandFits(Skip(t, 1), m, v);
  }

  lemma TwoSteps(s: Cpu)
    requires Cycle(s).Ok?
    ensures Run(s, 2) == Cycle(Cycle(s).value)
  {
    hide Cycle;
    if Cycle(Cycle(s).value).Ok? {
      assert Run(Cycle(s).value, 1) == Run(Cycle(Cycle(s).value).value, 0);
    }
  }
}
