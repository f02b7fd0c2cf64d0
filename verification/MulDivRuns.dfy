/** IMUL and IDIV as instructions, with any size prefixes. */
module MulDivRuns {
  import opened Words
  import opened Arithmetic
  import opened ArithmeticLaws
  import opened CpuState
  import opened ModRm
  import opened Isa
  import opened PrefixChains
  import opened AluRuns

  const GROUP_F7 := 0xF7

  /** The double-width number in EDX:EAX. */
  function Pair(regs: Registers, size16: bool): (v: nat)
    ensures v < Modulus(size16) * Modulus(size16)
  {
    HalvesBound(Truncate(regs[EDX], size16), Truncate(regs[EAX], size16), Modulus(size16));
    Truncate(regs[EDX], size16) * Modulus(size16) + Truncate(regs[EAX], size16)
  }

  /** `regs` differs from `old'` in the pair at most, and at 16 bits in its low halves. */
  ghost predicate OnlyPair(old': Registers, regs: Registers, size16: bool) {
    && regs == old'[EDX := regs[EDX]][EAX := regs[EAX]]
    && (size16 ==> regs[EDX] / 0x1_0000 == old'[EDX] / 0x1_0000 && regs[EAX] / 0x1_0000 == old'[EAX] / 0x1_0000)
  }

  /** `regs` with both halves of the pair assigned at the operand size, and nothing else. */
  ghost predicate PairAssigned(old': Registers, regs: Registers, high: uint32, low: uint32, size16: bool) {
    Truncate(regs[EDX], size16) == high && Truncate(regs[EAX], size16) == low && OnlyPair(old', regs, size16)
  }

  lemma AssignPair(s: Cpu, high: uint32, low: uint32)
    requires high < Modulus(s.operandSize16) && low < Modulus(s.operandSize16)
    ensures
      var t := SetReg(SetReg(s, EDX, high), EAX, low);
      PairAssigned(s.regs, t.regs, high, low, s.operandSize16) && t == s.(regs := t.regs)
  {
    if s.operandSize16 {
      HalfAssigned(s.regs[EDX], high);
      HalfAssigned(s.regs[EAX], low);
    }
  }

  lemma HalfAssigned(r: uint32, v: uint16)
    ensures LowHalf(r, v) % 0x1_0000 == v && LowHalf(r, v) / 0x1_0000 == r / 0x1_0000
  {
    assert LowHalf(r, v) == 0x1_0000 * (r / 0x1_0000) + v;
    LowPart(r / 0x1_0000, v);
  }

  lemma GroupRuns(t: Cpu, m: Operand, v: uint32)
    requires t.opbyte == GROUP_F7 && Operates(t, m, v)
    ensures Handler(t) == Leave(GroupF7Body(Skip(t, 1), m), m)
  {
    hide GroupF7Body, Leave, Decode, RmRead;
  }

  /** IMUL r/m leaves in EDX:EAX the exact signed product of EAX and the operand; CF and OF say whether its
      magnitude needs the upper half. */
  lemma MultiplyCycle(s: Cpu, ps: seq<uint8>, m: Operand, v: uint32)
    requires Prefixed(s, ps, GROUP_F7) && Operates(Started(s, ps, GROUP_F7), m, v) && m.extra == 5
    ensures Cycle(s).Ok?
    ensures
      var size16, n, u := OPERAND_SIZE in ps, Modulus(OPERAND_SIZE in ps), Cycle(s).value;
      var product := Signed(Truncate(s.regs[EAX], size16), n) * Signed(v, n);
      && Signed(Pair(u.regs, size16), n * n) == product
      && (u.freg.cf <==> Abs(product) >= n) && u.freg == s.freg.(cf := u.freg.cf, of := u.freg.cf)
      && OnlyPair(s.regs, u.regs, size16) && u.memory == s.memory
  {
    hide Cycle, Operates, Imul, SetReg, RmRead, Handler, Signed, Modulus, Truncate;
    var t := Started(s, ps, GROUP_F7);
    var b, size16 := Skip(t, 1), t.operandSize16;
    PrefixedCycle(s, ps, GROUP_F7);
    GroupRuns(t, m, v);
    OperandOf(t, m, v);
    ImulExact(Reg(b, EAX), v, size16);
    var (high, low, cf) := Imul(Reg(b, EAX), v, size16);
    AssignPair(b.(freg := b.freg.(of := cf, cf := cf)), high, low);
    assert ImulRm(b, m).Ok?;
  }

  /** The operand and the accumulator are at the operand size. */
  lemma OperandOf(t: Cpu, m: Operand, v: uint32)
    requires Operates(t, m, v)
    ensures
      var b, size16 := Skip(t, 1), t.operandSize16;
      && RmRead(b, m) == Ok(v) && v < Modulus(size16) && Truncate(v, size16) == v
      && Reg(b, EAX) == Truncate(t.regs[EAX], size16) < Modulus(size16)
      && Reg(b, EDX) == Truncate(t.regs[EDX], size16) < Modulus(size16)
  {
    hide RmRead, Decode;
    OperandFits(Skip(t, 1), m, v);
    TruncateSmall(v, t.operandSize16);
  }

  /** IDIV r/m raises the divide error exactly when the divisor is zero or the magnitude of the quotient does
      not fit the register.  Otherwise EAX holds the truncated quotient of EDX:EAX and the operand modulo
      the register size, EDX the remainder of the magnitudes, and no flag changes. */
  lemma DivideCycle(s: Cpu, ps: seq<uint8>, m: Operand, v: uint32)
    requires Prefixed(s, ps, GROUP_F7) && Operates(Started(s, ps, GROUP_F7), m, v) && m.extra == 7
    ensures
      var size16, n := OPERAND_SIZE in ps, Modulus(OPERAND_SIZE in ps);
      var x, d := Signed(Pair(s.regs, size16), n * n), Signed(v, n);
      match Cycle(s)
      case Fault(_, cause) => cause == DivideError && (d == 0 || Abs(x) / Abs(d) >= n)
      case Ok(u) =>
        && d != 0 && Abs(x) / Abs(d) < n
        && Truncate(u.regs[EAX], size16) == (if TruncDiv(x, d) < 0 then TruncDiv(x, d) + n else TruncDiv(x, d))
        && Truncate(u.regs[EDX], size16) == Abs(x) % Abs(d)
        && OnlyPair(s.regs, u.regs, size16) && u.memory == s.memory && u.freg == s.freg
  {
    hide Cycle, Operates, Idiv, SetReg, RmRead, Handler, Modulus, Truncate, TruncDiv;
    var t := Started(s, ps, GROUP_F7);
    var b, size16 := Skip(t, 1), t.operandSize16;
    PrefixedCycle(s, ps, GROUP_F7);
    GroupRuns(t, m, v);
    OperandOf(t, m, v);
    IdivMeaning(Reg(b, EDX), Reg(b, EAX), v, size16);
    ZeroSigned(v, size16);
    var r := Idiv(Reg(b, EDX), Reg(b, EAX), v, size16);
    if r.Divided? {
      AssignPair(b, r.remainder, r.quotient);
    }
  }

  lemma ZeroSigned(v: uint32, size16: bool)
    requires v < Modulus(size16)
    ensures Signed(v, Modulus(size16)) == 0 <==> v == 0
  {
  }
}
