/** The arithmetic instructions one by one, with any size prefixes, by integers. */
module AluInstructions {
  import opened Words
  import opened FlatMemory
  import opened Arithmetic
  import opened ArithmeticLaws
  import opened FlagLaws
  import opened CpuState
  import opened ModRm
  import opened Isa
  import opened PrefixChains
  import opened Pointers
  import opened Instructions
  import AluRuns
  import StackInstructions

  // ----- What the four operations compute -----

  /** The result of `op` on `b`, to the left, and `a`. */
  function Result(op: AluOp, f: Flags, b: uint32, a: uint32, low: bool): uint32 {
    var m := Modulus(low);
    match op
    case AddOp => (b as int + a as int) % m
    case AdcOp => (b as int + (a as int + Num(f.cf)) % m) % m
    case _ => (b as int - a as int) % m
  }

  predicate Computes(op: AluOp, f: Flags, b: uint32, a: uint32, low: bool, g: Flags) {
    var r := Result(op, f, b, a, low);
    match op
    case AddOp => IsSum(f, b, a, low, r, g)
    case AdcOp => IsSum(f, b, (a as int + Num(f.cf)) % Modulus(low), low, r, g)
    case _ => IsDifference(f, b, a, low, r, g)
  }

  lemma AluMeans(op: AluOp, f: Flags, b: uint32, a: uint32, low: bool)
    requires b < Modulus(low) && a < Modulus(low)
    ensures
      var o := Alu(op, f, b, a, low);
      o.value == Result(op, f, b, a, low) && Computes(op, f, b, a, low, o.freg)
  {
    hide Add, Adc, Sub, Shows, Overflows, Bit7Adds, Bit7Decides;
    match op
    case AddOp => AddMeans(f, b, a, low);
    case AdcOp => AdcMeans(f, b, a, low);
    case _ => SubMeans(f, b, a, low);
  }

  /** Only the operand at the operand size counts. */
  lemma AluTruncates(op: AluOp, f: Flags, b: uint32, x: int, low: bool)
    ensures Alu(op, f, b, Wrap32(x), low) == Alu(op, f, b, Truncate(x, low), low)
  {
    hide AddFlags, SubFlags;
    var c := Num(f.cf);
    if low {
      NarrowTwice(x);
      NarrowTwice(Wrap32(x) + c);
      NarrowTwice(Wrap16(x) + c);
      Wrap16Add(Wrap32(x), c);
    }
  }

  // ----- Operands -----

  /** The operand `m` follows the opcode. */
  ghost predicate HasOperand(s: Cpu, ps: seq<uint8>, op: uint8, m: Operand) {
    Prefixed(s, ps, op) && Decode(Started(s, ps, op)) == Ok(Decoded(Skip(Started(s, ps, op), 1), m))
  }

  /** The address of an operand in memory. */
  ghost function AddressOf(s: Cpu, ps: seq<uint8>, op: uint8, m: Operand): Result<uint32> {
    Address(Skip(Started(s, ps, op), 1), m)
  }

  /** The number of bytes from the opcode to the end of the operand. */
  ghost function Block(s: Cpu, ps: seq<uint8>, op: uint8, m: Operand): nat {
    1 + Length(Started(s, ps, op), m)
  }

  /** The operand is a register or a mapped word. */
  ghost predicate Readable(s: Cpu, ps: seq<uint8>, op: uint8, m: Operand) {
    m.mod == 3 || (AddressOf(s, ps, op, m).Ok? && Mapped(s.memory, AddressOf(s, ps, op, m).value, Size(ps)))
  }

  ghost function OperandValue(s: Cpu, ps: seq<uint8>, op: uint8, m: Operand): uint32
    requires Readable(s, ps, op, m)
  {
    if m.mod == 3 then RegisterValue(s, ps, m.rm) else WordAt(s.memory, AddressOf(s, ps, op, m).value, Size(ps))
  }

  lemma OperandMeans(s: Cpu, ps: seq<uint8>, op: uint8, m: Operand)
    ensures RmRead(Skip(Started(s, ps, op), 1), m).Ok? <==> Readable(s, ps, op, m)
    ensures Readable(s, ps, op, m) ==>
              && RmRead(Skip(Started(s, ps, op), 1), m) == Ok(OperandValue(s, ps, op, m))
              && OperandValue(s, ps, op, m) < Modulus(Narrow(ps))
  {
    hide Address, Mapped, Get;
    if Readable(s, ps, op, m) {
      AluRuns.OperandFits(Skip(Started(s, ps, op), 1), m, OperandValue(s, ps, op, m));
    }
  }

  lemma ValueFits(s: Cpu, ps: seq<uint8>, i: RegisterIndex)
    ensures RegisterValue(s, ps, i) < Modulus(Narrow(ps))
  {
  }

  // ----- op r, r/m -----

  /** The opcodes of the register form. */
  predicate RegisterForm(code: uint8, op: AluOp) {
    (code, op) in {(0x03, AddOp), (0x13, AdcOp), (0x2B, SubOp), (0x3B, CmpOp)}
  }

  lemma RegisterHandler(t: Cpu, op: AluOp)
    requires RegisterForm(t.opbyte, op)
    ensures Basic(t) == AluRRm(t, op)
  {
    hide AluRRm;
  }

  /** ADD, ADC, SUB and CMP of a register, to the left, with a register or memory operand. */
  lemma RegisterWithOperand(s: Cpu, ps: seq<uint8>, code: uint8, op: AluOp, m: Operand)
    requires RegisterForm(code, op) && HasOperand(s, ps, code, m) && Readable(s, ps, code, m)
    ensures Cycle(s).Ok?
    ensures
      var b, a, low, g := RegisterValue(s, ps, m.extra), OperandValue(s, ps, code, m), Narrow(ps), Cycle(s).value.freg;
      var r := Result(op, s.freg, b, a, low);
      && Computes(op, s.freg, b, a, low, g)
      && Cycle(s) == Ok(Next(s, ps, code, Block(s, ps, code, m)).(freg := g,
           regs := if op == CmpOp then s.regs else s.regs[m.extra := Assigned(s.regs[m.extra], r, low)]))
  {
    hide Cycle, Basic, Prefixed, Decode, RmRead, Alu, Length, Assigned, Readable, OperandValue, Result, Computes, SetReg;
    var t := Started(s, ps, code);
    var b, a := RegisterValue(s, ps, m.extra), OperandValue(s, ps, code, m);
    RegisterHandler(t, op);
    OperandMeans(s, ps, code, m);
    ValueFits(s, ps, m.extra);
    RegIsValue(s, ps, code, m.extra);
    AluMeans(op, s.freg, b, a, Narrow(ps));
    RegisterBody(t, m, op, a);
    var o := Alu(op, s.freg, b, a, Narrow(ps));
    BlockEnds(s, ps, code, m, 0);
    Ends(s, ps, code, Block(s, ps, code, m), AluRRm(t, op).value);
  }

  lemma RegisterBody(t: Cpu, m: Operand, op: AluOp, a: uint32)
    requires Decode(t) == Ok(Decoded(Skip(t, 1), m)) && RmRead(Skip(t, 1), m) == Ok(a)
    ensures
      var o := Alu(op, t.freg, Reg(t, m.extra), a, t.operandSize16);
      AluRRm(t, op) == Ok(Skip(Skip(t, 1), Length(t, m) - 1).(freg := o.freg, regs :=
        if op == CmpOp then t.regs else t.regs[m.extra := Assigned(t.regs[m.extra], o.value, t.operandSize16)]))
  {
    hide Decode, RmRead, Alu, Length, Assigned, SetReg;
    var o := Alu(op, t.freg, Reg(t, m.extra), a, t.operandSize16);
    SetRegAssigns(Skip(t, 1).(freg := o.freg), m.extra, o.value);
    SameLength(t, Skip(t, 1).(freg := o.freg), m);
    SameLength(t, SetReg(Skip(t, 1).(freg := o.freg), m.extra, o.value), m);
  }

  lemma SameLength(t: Cpu, u: Cpu, m: Operand)
    requires t.addressSize16 == u.addressSize16
    ensures Length(t, m) == Length(u, m)
  {
  }

  /** The destructor and an immediate of `d` bytes lead to the last byte of the instruction. */
  lemma BlockEnds(s: Cpu, ps: seq<uint8>, op: uint8, m: Operand, d: nat)
    ensures
      var t, n := Started(s, ps, op), Block(s, ps, op, m);
      && Skip(Skip(Skip(t, 1), d), Length(t, m) - 1) == Skip(t, n + d - 1)
      && Skip(Skip(t, 1), Length(t, m) - 1) == Skip(t, n - 1)
  {
    hide Length;
    var t := Started(s, ps, op);
    var n: int := Length(t, m);
    SkipsAdd(t, 1, d);
    SkipsAdd(t, 1 + d, n - 1);
    SkipsAdd(t, 1, n - 1);
  }

  lemma SkipsAdd(t: Cpu, d: int, e: int)
    ensures Skip(Skip(t, d), e) == Skip(t, d + e)
  {
    WrapAdd(t.eip + d, e);
  }

  // ----- op r/m, imm -----

  /** The extensions of groups 81 and 83. */
  predicate Extension(extra: RegisterIndex, op: AluOp) { (extra, op) in {(0, AddOp), (2, AdcOp), (5, SubOp), (7, CmpOp)} }

  /** Group 83 has a byte for its immediate, group 81 a word. */
  function ImmediateBytes(ps: seq<uint8>, code: uint8): (n: nat)
    ensures n in {1, 2, 4}
  {
    if code == 0x83 then 1 else Size(ps)
  }

  ghost predicate HasImmediate(s: Cpu, ps: seq<uint8>, code: uint8, m: Operand) {
    Mapped(s.memory, At(s, ps, Block(s, ps, code, m)), ImmediateBytes(ps, code))
  }

  /** The immediate behind the operand, a byte being sign-extended. */
  ghost function ImmediateValue(s: Cpu, ps: seq<uint8>, code: uint8, m: Operand): uint32
    requires HasImmediate(s, ps, code, m)
  {
    var v := WordAt(s.memory, At(s, ps, Block(s, ps, code, m)), ImmediateBytes(ps, code));
    if code == 0x83 then Truncate(if v >= 0x80 then v - 0x100 else v, Narrow(ps)) else v
  }

  /** What `t` becomes when `v` is assigned to the operand. */
  ghost function WithOperand(s: Cpu, ps: seq<uint8>, op: uint8, m: Operand, t: Cpu, v: uint32): Step {
    if m.mod == 3 then Ok(t.(regs := s.regs[m.rm := Assigned(s.regs[m.rm], v, Narrow(ps))]))
    else
      match AddressOf(s, ps, op, m)
      case Fault(_, cause) => Fault(t, cause)
      case Ok(a) =>
        if Writable(s.memory, a, Size(ps)) then Ok(t.(memory := Put(s.memory, a, Size(ps), v))) else Fault(t, MemoryFault)
  }

  lemma OperandAssigned(s: Cpu, ps: seq<uint8>, op: uint8, m: Operand, t: Cpu, v: uint32)
    requires t == Skip(Started(s, ps, op), 1).(freg := t.freg) && Readable(s, ps, op, m)
    ensures RmWrite(t, m, v) == WithOperand(s, ps, op, m, t, v)
  {
    hide Put, Writable, Get, Mapped, Disp16, Disp32, Assigned, SetReg;
    AluRuns.SameDisp16(Skip(Started(s, ps, op), 1), t, m);
    AluRuns.SameDisp32(Skip(Started(s, ps, op), 1), t, m);
    SetRegAssigns(t, m.rm, v);
  }

  lemma ImmediateFetched(s: Cpu, ps: seq<uint8>, code: uint8, m: Operand)
    requires HasImmediate(s, ps, code, m) && (code == 0x81 || code == 0x83)
    ensures
      var k := ImmediateBytes(ps, code);
      RmImmediate(Skip(Started(s, ps, code), 1), m, k) == Ok(WordAt(s.memory, At(s, ps, Block(s, ps, code, m)), k))
    ensures ImmediateValue(s, ps, code, m) < Modulus(Narrow(ps))
  {
    hide Mapped, Get, Length;
    var n := Length(Started(s, ps, code), m);
    SameLength(Started(s, ps, code), Skip(Started(s, ps, code), 1), m);
    WrapAdd(s.eip + |ps|, 1);
    WrapAdd(s.eip + |ps| + 1, n);
    if code == 0x81 {
      WordBound(s.memory, At(s, ps, Block(s, ps, code, m)), Narrow(ps));
    }
  }

  lemma GroupHandlers(t: Cpu)
    ensures t.opbyte == 0x81 ==> Basic(t) == AluGroup(t, OperandSize(t))
    ensures t.opbyte == 0x83 ==> Basic(t) == AluGroup(t, 1)
  {
    hide AluGroup;
  }

  /** The group body in terms of the operation, for the operand `b` and the immediate as fetched. */
  lemma GroupBody(t: Cpu, m: Operand, op: AluOp, k: nat, b: uint32, imm: uint32)
    requires k in {1, 2, 4} && Extension(m.extra, op)
    requires RmRead(t, m) == Ok(b) && RmImmediate(t, m, k) == Ok(imm)
    ensures
      var o := Alu(op, t.freg, b, Wrap32(if k == 1 then SignExtend(imm, 0x100) else imm as int), t.operandSize16);
      var v := t.(freg := o.freg);
      AluGroupBody(t, m, k) ==
        match if op == CmpOp then Ok(v) else RmWrite(v, m, o.value)
        case Ok(u) => Ok(Skip(u, k))
        case Fault(u, cause) => Fault(u, cause)
  {
    hide RmRead, RmWrite, RmImmediate, Alu, SignExtend;
    assert AluGroupBody(t, m, k) == AluRmImm(t, m, op, k);
  }

  /** `u` is `t` but for registers and memory. */
  ghost predicate OnlyAssigned(t: Cpu, u: Cpu) { u == t.(regs := u.regs, memory := u.memory) }

  lemma AssignedOnly(s: Cpu, ps: seq<uint8>, op: uint8, m: Operand, t: Cpu, t': Cpu, v: uint32)
    requires t.regs == t'.regs == s.regs && t.memory == t'.memory == s.memory
    ensures
      match WithOperand(s, ps, op, m, t, v)
      case Ok(u) =>
        OnlyAssigned(t, u) && WithOperand(s, ps, op, m, t', v) == Ok(t'.(regs := u.regs, memory := u.memory))
      case Fault(u, cause) => u == t && WithOperand(s, ps, op, m, t', v) == Fault(t', cause)
  {
    hide Address, Put, Writable, Assigned;
  }

  /** The end of a handler with a ModRM operand: what is left to do after the body has assigned it. */
  lemma BodyEnds(s: Cpu, ps: seq<uint8>, code: uint8, m: Operand, d: nat, f: Flags, r: Step)
    requires HasOperand(s, ps, code, m) && code != 0x0F && Basic(Started(s, ps, code)) == Leave(r, m)
    requires
      match r
      case Ok(u) => u == Skip(Skip(Started(s, ps, code), 1), d).(freg := f, regs := u.regs, memory := u.memory)
      case Fault(u, _) => u == Skip(Started(s, ps, code), 1).(freg := f)
    ensures
      match r
      case Ok(u) =>
        Cycle(s) == Ok(Next(s, ps, code, Block(s, ps, code, m) + d).(freg := f, regs := u.regs, memory := u.memory))
      case Fault(u, cause) =>
        && Cycle(s).Fault? && Cycle(s).cause == cause
        && Cycle(s).at.freg == f && Cycle(s).at.regs == s.regs && Cycle(s).at.memory == s.memory
  {
    hide Cycle, Basic, Prefixed, Decode, Length;
    var t := Started(s, ps, code);
    match r
    case Ok(u) =>
      SameLength(t, u, m);
      BlockEnds(s, ps, code, m, d);
      Ends(s, ps, code, Block(s, ps, code, m) + d, Skip(u, Length(t, m) - 1));
    case Fault(u, cause) =>
      Faults(s, ps, code, Skip(u, Length(u, m) - 1), cause);
  }

  /** How an operation on a register or memory operand, to the left, and an immediate ends: a refused write leaves
      the flags set. */
  ghost predicate Combined(s: Cpu, ps: seq<uint8>, code: uint8, op: AluOp, m: Operand, end: Step)
    requires Readable(s, ps, code, m) && HasImmediate(s, ps, code, m)
  {
    var b, a, low, g := OperandValue(s, ps, code, m), ImmediateValue(s, ps, code, m), Narrow(ps), AluRuns.Left(end).freg;
    var next := Next(s, ps, code, Block(s, ps, code, m) + ImmediateBytes(ps, code)).(freg := g);
    && Computes(op, s.freg, b, a, low, g)
    && match if op == CmpOp then Ok(next) else WithOperand(s, ps, code, m, next, Result(op, s.freg, b, a, low))
       case Ok(u) => end == Ok(u)
       case Fault(_, cause) => end.Fault? && end.cause == cause && end.at.regs == s.regs && end.at.memory == s.memory
  }

  /** ADD, ADC, SUB and CMP r/m, imm. */
  lemma OperandWithImmediate(s: Cpu, ps: seq<uint8>, code: uint8, op: AluOp, m: Operand)
    requires (code == 0x81 || code == 0x83) && Extension(m.extra, op)
    requires HasOperand(s, ps, code, m) && Readable(s, ps, code, m) && HasImmediate(s, ps, code, m)
    ensures Combined(s, ps, code, op, m, Cycle(s))
  {
    hide Cycle, Basic, Leave, HasOperand, Alu, Readable, OperandValue, ImmediateValue, Block, Combined;
    hide WithOperand, Result, Computes, AluGroupBody, HasImmediate, At;
    var t, k, low := Skip(Started(s, ps, code), 1), ImmediateBytes(ps, code), Narrow(ps);
    var b, a := OperandValue(s, ps, code, m), ImmediateValue(s, ps, code, m);
    OperandMeans(s, ps, code, m);
    ImmediateFetched(s, ps, code, m);
    AluMeans(op, s.freg, b, a, low);
    var o := Alu(op, s.freg, b, a, low);
    GroupAssigns(s, ps, code, op, m);
    AssignedOnly(s, ps, code, m, t.(freg := o.freg), t.(freg := o.freg), o.value);
    GroupEnds(s, ps, code, m);
    BodyEnds(s, ps, code, m, k, o.freg, AluGroupBody(t, m, k));
    ImmediateConcludes(s, ps, code, op, m, o, AluGroupBody(t, m, k), Cycle(s));
  }

  lemma ImmediateConcludes(s: Cpu, ps: seq<uint8>, code: uint8, op: AluOp, m: Operand, o: Outcome, body: Step, end: Step)
    requires Readable(s, ps, code, m) && HasImmediate(s, ps, code, m)
    requires
      var b, a, low := OperandValue(s, ps, code, m), ImmediateValue(s, ps, code, m), Narrow(ps);
      o.value == Result(op, s.freg, b, a, low) && Computes(op, s.freg, b, a, low, o.freg)
    requires
      var v := Skip(Started(s, ps, code), 1).(freg := o.freg);
      body ==
        match if op == CmpOp then Ok(v) else WithOperand(s, ps, code, m, v, o.value)
        case Ok(u) => Ok(Skip(u, ImmediateBytes(ps, code)))
        case Fault(u, cause) => Fault(u, cause)
    requires
      match body
      case Ok(u) => end == Ok(Next(s, ps, code, Block(s, ps, code, m) + ImmediateBytes(ps, code)).(
                      freg := o.freg, regs := u.regs, memory := u.memory))
      case Fault(_, cause) =>
        && end.Fault? && end.cause == cause
        && end.at.freg == o.freg && end.at.regs == s.regs && end.at.memory == s.memory
    ensures Combined(s, ps, code, op, m, end)
  {
    hide Readable, HasImmediate, OperandValue, ImmediateValue, WithOperand, Computes, Result, At, Block;
    var next := Next(s, ps, code, Block(s, ps, code, m) + ImmediateBytes(ps, code)).(freg := o.freg);
    AssignedOnly(s, ps, code, m, Skip(Started(s, ps, code), 1).(freg := o.freg), next, o.value);
  }

  lemma GroupEnds(s: Cpu, ps: seq<uint8>, code: uint8, m: Operand)
    requires (code == 0x81 || code == 0x83) && HasOperand(s, ps, code, m)
    ensures
      Basic(Started(s, ps, code)) == Leave(AluGroupBody(Skip(Started(s, ps, code), 1), m, ImmediateBytes(ps, code)), m)
  {
    hide Basic, AluGroup, AluGroupBody, Leave, Decode, Prefixed;
    GroupHandlers(Started(s, ps, code));
    GroupOf(Started(s, ps, code), m, ImmediateBytes(ps, code));
  }

  /** The body of the group, the operand read and the immediate fetched. */
  lemma GroupAssigns(s: Cpu, ps: seq<uint8>, code: uint8, op: AluOp, m: Operand)
    requires (code == 0x81 || code == 0x83) && Extension(m.extra, op)
    requires Readable(s, ps, code, m) && HasImmediate(s, ps, code, m)
    ensures
      var t, k := Skip(Started(s, ps, code), 1), ImmediateBytes(ps, code);
      var o := Alu(op, s.freg, OperandValue(s, ps, code, m), ImmediateValue(s, ps, code, m), Narrow(ps));
      var v := t.(freg := o.freg);
      AluGroupBody(t, m, k) ==
        match if op == CmpOp then Ok(v) else WithOperand(s, ps, code, m, v, o.value)
        case Ok(u) => Ok(Skip(u, k))
        case Fault(u, cause) => Fault(u, cause)
  {
    hide RmRead, RmWrite, RmImmediate, Alu, Readable, OperandValue, ImmediateValue, WithOperand, AluGroupBody, HasImmediate;
    hide SignExtend, Block, At;
    var t, k := Skip(Started(s, ps, code), 1), ImmediateBytes(ps, code);
    var b := OperandValue(s, ps, code, m);
    OperandMeans(s, ps, code, m);
    ImmediateFetched(s, ps, code, m);
    var o := Alu(op, s.freg, b, ImmediateValue(s, ps, code, m), Narrow(ps));
    ImmediateTruncates(s, ps, code, m, op, b);
    GroupBody(t, m, op, k, b, RmImmediate(t, m, k).value);
    OperandAssigned(s, ps, code, m, t.(freg := o.freg), o.value);
  }

  lemma GroupOf(t: Cpu, m: Operand, k: nat)
    requires k in {1, 2, 4} && Decode(t) == Ok(Decoded(Skip(t, 1), m))
    ensures AluGroup(t, k) == Leave(AluGroupBody(Skip(t, 1), m, k), m)
  {
    hide Decode, AluGroupBody, Leave;
  }

  lemma ImmediateTruncates(s: Cpu, ps: seq<uint8>, code: uint8, m: Operand, op: AluOp, b: uint32)
    requires HasImmediate(s, ps, code, m) && (code == 0x81 || code == 0x83)
    ensures
      var k, low := ImmediateBytes(ps, code), Narrow(ps);
      var imm := WordAt(s.memory, At(s, ps, Block(s, ps, code, m)), k);
      Alu(op, s.freg, b, Wrap32(if k == 1 then SignExtend(imm, 0x100) else imm as int), low)
        == Alu(op, s.freg, b, ImmediateValue(s, ps, code, m), low)
  {
    hide Alu, Mapped, Get, Block;
    var k := ImmediateBytes(ps, code);
    var imm := WordAt(s.memory, At(s, ps, Block(s, ps, code, m)), k);
    AluTruncates(op, s.freg, b, if k == 1 then SignExtend(imm, 0x100) else imm, Narrow(ps));
    if code == 0x81 {
      WordBound(s.memory, At(s, ps, Block(s, ps, code, m)), Narrow(ps));
      TruncateSmall(imm, Narrow(ps));
    }
  }

  // ----- INC and DEC -----

  /** `v` plus or minus one. */
  function Stepped(v: uint32, up: bool, low: bool): uint32 { (v as int + if up then 1 else -1) % Modulus(low) }

  /** The carry or borrow of that. */
  predicate StepCarries(v: uint32, up: bool, low: bool) { if up then v as int + 1 >= Modulus(low) else v == 0 }

  /** The flags that counting leaves: those of the sum or difference, CF as it was with a copy in the reserved bit. */
  predicate Counts(f: Flags, v: uint32, up: bool, low: bool, g: Flags) {
    && CountsThrough(f, v, up, low, g.(cf := StepCarries(v, up, low))) && g.cf == f.cf
  }

  /** The flags in between, CF put aside and set by the sum or difference. */
  predicate CountsThrough(f: Flags, v: uint32, up: bool, low: bool, g: Flags) {
    if up then IsSum(f.(r0 := f.cf), v, 1, low, Stepped(v, up, low), g)
    else IsDifference(f.(r0 := f.cf), v, 1, low, Stepped(v, up, low), g)
  }

  lemma CountsMean(f: Flags, v: uint32, up: bool, low: bool)
    requires v < Modulus(low)
    ensures
      var o := if up then Inc(f, v, low) else Dec(f, v, low);
      o.value == Stepped(v, up, low) && Counts(f, v, up, low, o.freg)
    ensures
      var h := f.(r0 := f.cf);
      var o := if up then Add(h, v, 1, low) else Sub(h, v, 1, low);
      o.value == Stepped(v, up, low) && CountsThrough(f, v, up, low, o.freg)
      && Counts(f, v, up, low, o.freg.(cf := o.freg.r0))
  {
    hide Add, Sub, IsSum, IsDifference;
    var h := f.(r0 := f.cf);
    var o := if up then Add(h, v, 1, low) else Sub(h, v, 1, low);
    AddMeans(h, v, 1, low);
    SubMeans(h, v, 1, low);
    CarryOfStep(f, v, up, low, o);
    assert o.freg.(cf := o.freg.r0).(cf := StepCarries(v, up, low)) == o.freg;
  }

  /** The carry of the adder is that of the step, and the reserved bit has CF. */
  lemma CarryOfStep(f: Flags, v: uint32, up: bool, low: bool, o: Outcome)
    requires CountsThrough(f, v, up, low, o.freg)
    ensures o.freg.cf == StepCarries(v, up, low) && o.freg.r0 == f.cf
  {
    hide Shows, Overflows, Bit7Adds, Bit7Decides;
  }

  /** The opcodes of INC r and DEC r. */
  function CountCode(i: RegisterIndex, up: bool): uint8 { if up then 0x40 + i else 0x48 + i }

  lemma CountHandler(t: Cpu, i: RegisterIndex, up: bool)
    requires t.opbyte == CountCode(i, up)
    ensures Basic(t) == (if up then IncR(t, i) else DecR(t, i)) && CountCode(i, up) != 0x0F
  {
    hide IncR, DecR;
  }

  /** INC r, opcode 0x40 + i, and DEC r, opcode 0x48 + i. */
  lemma CountRegister(s: Cpu, ps: seq<uint8>, i: RegisterIndex, up: bool)
    requires Prefixed(s, ps, CountCode(i, up))
    ensures Cycle(s).Ok?
    ensures
      var v, low, g := RegisterValue(s, ps, i), Narrow(ps), Cycle(s).value.freg;
      && Counts(s.freg, v, up, low, g)
      && Cycle(s) == Ok(Next(s, ps, CountCode(i, up), 1).(
           freg := g, regs := s.regs[i := Assigned(s.regs[i], Stepped(v, up, low), low)]))
  {
    hide Cycle, Basic, Prefixed, Inc, Dec, IncR, DecR, Counts, Stepped, Assigned, Reg, RegisterValue, CountCode;
    var v, low := RegisterValue(s, ps, i), Narrow(ps);
    var t := Started(s, ps, CountCode(i, up));
    CountHandler(t, i, up);
    RegIsValue(s, ps, CountCode(i, up), i);
    ValueFits(s, ps, i);
    CountsMean(s.freg, v, up, low);
    CountAssigns(t, i, up);
    var o := if up then Inc(s.freg, v, low) else Dec(s.freg, v, low);
    var regs: Registers := s.regs[i := Assigned(s.regs[i], o.value, low)];
    assert Basic(t) == Ok(t.(freg := o.freg, regs := regs));
    NoMove(t);
    Ends(s, ps, CountCode(i, up), 1, t.(freg := o.freg, regs := regs));
  }

  lemma CountAssigns(t: Cpu, i: RegisterIndex, up: bool)
    ensures
      var low := t.operandSize16;
      var o := if up then Inc(t.freg, Reg(t, i), low) else Dec(t.freg, Reg(t, i), low);
      (if up then IncR(t, i) else DecR(t, i)) ==
      Ok(t.(freg := o.freg, regs := t.regs[i := Assigned(t.regs[i], o.value, low)]))
  {
    hide Inc, Dec, Assigned, SetReg, Reg;
    var o := if up then Inc(t.freg, Reg(t, i), t.operandSize16) else Dec(t.freg, Reg(t, i), t.operandSize16);
    SetRegAssigns(t.(freg := o.freg), i, o.value);
  }

  // ----- Group FF -----

  lemma GroupFFHandler(t: Cpu, m: Operand)
    requires t.opbyte == 0xFF && Decode(t) == Ok(Decoded(Skip(t, 1), m)) && m.extra !in {2, 4}
    ensures Basic(t) == Leave(GroupFFBody(Skip(t, 1), m), m)
  {
    hide Decode, GroupFFBody, Leave, Basic;
    GroupHandler(t);
  }

  /** How INC or DEC of an operand ends: a refused write leaves the flags of the sum or difference, CF among them. */
  ghost predicate OperandCounted(s: Cpu, ps: seq<uint8>, m: Operand, up: bool, end: Step)
    requires Readable(s, ps, 0xFF, m)
  {
    var v, low, g := OperandValue(s, ps, 0xFF, m), Narrow(ps), AluRuns.Left(end).freg;
    match WithOperand(s, ps, 0xFF, m, Next(s, ps, 0xFF, Block(s, ps, 0xFF, m)).(freg := g), Stepped(v, up, low))
    case Ok(u) => end == Ok(u) && Counts(s.freg, v, up, low, g)
    case Fault(_, cause) =>
      && end.Fault? && end.cause == cause && CountsThrough(s.freg, v, up, low, g)
      && end.at.regs == s.regs && end.at.memory == s.memory
  }

  /** INC r/m and DEC r/m. */
  lemma CountOperand(s: Cpu, ps: seq<uint8>, m: Operand, up: bool)
    requires HasOperand(s, ps, 0xFF, m) && Readable(s, ps, 0xFF, m) && m.extra == if up then 0 else 1
    ensures OperandCounted(s, ps, m, up, Cycle(s))
  {
    hide Cycle, Basic, Leave, HasOperand, Readable, OperandValue, Add, Sub, GroupFFBody, OperandCounted;
    hide WithOperand, Counts, CountsThrough, Stepped, At, Block;
    var t, v, low := Skip(Started(s, ps, 0xFF), 1), OperandValue(s, ps, 0xFF, m), Narrow(ps);
    OperandMeans(s, ps, 0xFF, m);
    CountsMean(s.freg, v, up, low);
    GroupFFEnds(s, ps, m);
    var h := s.freg.(r0 := s.freg.cf);
    var o := if up then Add(h, v, 1, low) else Sub(h, v, 1, low);
    CountBodyAssigns(s, ps, m, v, up);
    AssignedOnly(s, ps, 0xFF, m, t.(freg := o.freg), t.(freg := o.freg), o.value);
    CountEnds(s, ps, m, GroupFFBody(t, m), o.freg);
    CountConcludes(s, ps, m, up, o, GroupFFBody(t, m), Cycle(s));
  }

  lemma CountConcludes(s: Cpu, ps: seq<uint8>, m: Operand, up: bool, o: Outcome, body: Step, end: Step)
    requires Readable(s, ps, 0xFF, m)
    requires
      var v, low := OperandValue(s, ps, 0xFF, m), Narrow(ps);
      && o.value == Stepped(v, up, low) && CountsThrough(s.freg, v, up, low, o.freg)
      && Counts(s.freg, v, up, low, o.freg.(cf := o.freg.r0))
    requires
      body ==
        match WithOperand(s, ps, 0xFF, m, Skip(Started(s, ps, 0xFF), 1).(freg := o.freg), o.value)
        case Ok(u) => Ok(u.(freg := u.freg.(cf := u.freg.r0)))
        case Fault(u, cause) => Fault(u, cause)
    requires
      match body
      case Ok(u) => end == Ok(Next(s, ps, 0xFF, Block(s, ps, 0xFF, m)).(
                      freg := o.freg.(cf := o.freg.r0), regs := u.regs, memory := u.memory))
      case Fault(_, cause) =>
        && end.Fault? && end.cause == cause
        && end.at.freg == o.freg && end.at.regs == s.regs && end.at.memory == s.memory
    ensures OperandCounted(s, ps, m, up, end)
  {
    hide Readable, OperandValue, WithOperand, Counts, CountsThrough, Stepped, At, Block;
    var next := Next(s, ps, 0xFF, Block(s, ps, 0xFF, m)).(freg := AluRuns.Left(end).freg);
    AssignedOnly(s, ps, 0xFF, m, Skip(Started(s, ps, 0xFF), 1).(freg := o.freg), next, o.value);
  }

  lemma GroupFFEnds(s: Cpu, ps: seq<uint8>, m: Operand)
    requires HasOperand(s, ps, 0xFF, m) && m.extra !in {2, 4}
    ensures Basic(Started(s, ps, 0xFF)) == Leave(GroupFFBody(Skip(Started(s, ps, 0xFF), 1), m), m)
  {
    hide Basic, Leave, GroupFFBody, Decode, Prefixed;
    GroupFFHandler(Started(s, ps, 0xFF), m);
  }

  lemma CountBodyAssigns(s: Cpu, ps: seq<uint8>, m: Operand, v: uint32, up: bool)
    requires Readable(s, ps, 0xFF, m) && v == OperandValue(s, ps, 0xFF, m) && m.extra == if up then 0 else 1
    ensures
      var t, low, h := Skip(Started(s, ps, 0xFF), 1), Narrow(ps), s.freg.(r0 := s.freg.cf);
      var o := if up then Add(h, v, 1, low) else Sub(h, v, 1, low);
      GroupFFBody(t, m) ==
        match WithOperand(s, ps, 0xFF, m, t.(freg := o.freg), o.value)
        case Ok(u) => Ok(u.(freg := u.freg.(cf := u.freg.r0)))
        case Fault(u, cause) => Fault(u, cause)
  {
    hide RmRead, RmWrite, Readable, OperandValue, Add, Sub, GroupFFBody, WithOperand;
    var t, low, h := Skip(Started(s, ps, 0xFF), 1), Narrow(ps), s.freg.(r0 := s.freg.cf);
    var o := if up then Add(h, v, 1, low) else Sub(h, v, 1, low);
    OperandMeans(s, ps, 0xFF, m);
    CountBody(t, m, v, up);
    OperandAssigned(s, ps, 0xFF, m, t.(freg := o.freg), o.value);
  }

  lemma CountBody(t: Cpu, m: Operand, v: uint32, up: bool)
    requires RmRead(t, m) == Ok(v) && m.extra == if up then 0 else 1
    ensures
      var h := t.freg.(r0 := t.freg.cf);
      var o := if up then Add(h, v, 1, t.operandSize16) else Sub(h, v, 1, t.operandSize16);
      GroupFFBody(t, m) ==
        match RmWrite(t.(freg := o.freg), m, o.value)
        case Ok(u) => Ok(u.(freg := u.freg.(cf := u.freg.r0)))
        case Fault(u, cause) => Fault(u, cause)
  {
    hide RmRead, RmWrite, Add, Sub;
    AluRuns.SameOperand(t, t.(freg := t.freg.(r0 := t.freg.cf)), m);
  }

  lemma CountEnds(s: Cpu, ps: seq<uint8>, m: Operand, r: Step, f: Flags)
    requires HasOperand(s, ps, 0xFF, m) && Basic(Started(s, ps, 0xFF)) == Leave(r, m)
    requires
      match r
      case Ok(u) => u == Skip(Started(s, ps, 0xFF), 1).(freg := f.(cf := f.r0), regs := u.regs, memory := u.memory)
      case Fault(u, _) => u == Skip(Started(s, ps, 0xFF), 1).(freg := f)
    ensures
      match r
      case Ok(u) =>
        Cycle(s) == Ok(Next(s, ps, 0xFF, Block(s, ps, 0xFF, m)).(freg := f.(cf := f.r0), regs := u.regs, memory := u.memory))
      case Fault(u, cause) =>
        && Cycle(s).Fault? && Cycle(s).cause == cause
        && Cycle(s).at.freg == f && Cycle(s).at.regs == s.regs && Cycle(s).at.memory == s.memory
  {
    hide Cycle, Basic, Leave, HasOperand, Block;
    NoMove(Skip(Started(s, ps, 0xFF), 1));
    BodyEnds(s, ps, 0xFF, m, 0, if r.Ok? then f.(cf := f.r0) else f, r);
  }

  lemma NoMove(t: Cpu)
    ensures Skip(t, 0) == t
  {
  }

  /** PUSH r/m pushes the operand as it is before the push. */
  lemma PushOperand(s: Cpu, ps: seq<uint8>, m: Operand)
    requires HasOperand(s, ps, 0xFF, m) && Readable(s, ps, 0xFF, m) && m.extra == 6
    ensures
      var a, n := StackInstructions.Below(s, ps), Size(ps);
      if Writable(s.memory, a, n) then
        Cycle(s) == Ok(StackInstructions.WithPushed(
          s, ps, Next(s, ps, 0xFF, Block(s, ps, 0xFF, m)), OperandValue(s, ps, 0xFF, m)))
      else Cycle(s).Fault? && Cycle(s).cause == MemoryFault && Cycle(s).at.memory == s.memory
  {
    hide Cycle, Basic, Prefixed, Decode, Leave, Readable, OperandValue, Put, Writable, Push, RmRead, Length, GroupFFBody;
    hide StackInstructions.Below, StackInstructions.Moved;
    var t, v := Skip(Started(s, ps, 0xFF), 1), OperandValue(s, ps, 0xFF, m);
    OperandMeans(s, ps, 0xFF, m);
    GroupFFEnds(s, ps, m);
    StackInstructions.HandlerPushes(s, ps, t, v);
    assert GroupFFBody(t, m) == Push(t, v) by {
      PushBody(t, m, v);
    }
    if Writable(s.memory, StackInstructions.Below(s, ps), Size(ps)) {
      NoMove(t);
      BodyEnds(s, ps, 0xFF, m, 0, s.freg, GroupFFBody(t, m));
    } else {
      var u := Push(t, v).at;
      LeavesFault(u, m, MemoryFault);
      Faults(s, ps, 0xFF, Skip(u, Length(u, m) - 1), MemoryFault);
    }
  }

  lemma PushBody(t: Cpu, m: Operand, v: uint32)
    requires RmRead(t, m) == Ok(v) && m.extra == 6
    ensures GroupFFBody(t, m) == Push(t, v)
  {
    hide RmRead, Push;
  }

  lemma LeavesFault(u: Cpu, m: Operand, cause: Cause)
    ensures Leave(Fault(u, cause), m) == Fault(Skip(u, Length(u, m) - 1), cause)
  {
    hide Length;
  }

  /** Extension 7 of group FF is an unknown opcode. */
  lemma GroupFFUnknown(s: Cpu, ps: seq<uint8>, m: Operand)
    requires HasOperand(s, ps, 0xFF, m) && m.extra == 7
    ensures
      Cycle(s) == Fault(Started(s, ps, 0xFF).(eip := At(s, ps, Block(s, ps, 0xFF, m) - 2)), UnknownOpcode)
  {
    hide Cycle, Basic, Prefixed, Decode, Leave, Length;
    var t := Started(s, ps, 0xFF);
    var n: int := Length(t, m);
    GroupFFEnds(s, ps, m);
    var u := Skip(Skip(t, 1), -1);
    assert GroupFFBody(Skip(t, 1), m) == Fault(u, UnknownOpcode);
    LeavesFault(u, m, UnknownOpcode);
    SameLength(t, u, m);
    SkipsAdd(t, 1, -1);
    NoMove(t);
    WrapAdd(s.eip + |ps|, n - 1);
    Faults(s, ps, 0xFF, Skip(u, n - 1), UnknownOpcode);
  }
}
