/** MOV r, imm, NOP and the string instructions without REP, one by one and with any size prefixes. */
module DataInstructions {
  import opened Words
  import opened FlatMemory
  import opened Arithmetic
  import opened FlagLaws
  import opened CpuState
  import opened Isa
  import opened PrefixChains
  import opened Pointers
  import opened Instructions

  lemma MovHandlers(t: Cpu)
    ensures 0xB8 <= t.opbyte < 0xC0 ==> Basic(t) == MovRImm(t, t.opbyte - 0xB8)
    ensures t.opbyte == 0x90 ==> Basic(t) == Ok(t)
    ensures t.opbyte in {0xA5, 0xA7, 0xAB, 0xAF} ==> Basic(t) == StringOp(t, t.opbyte)
  {
    hide MovRImm, MovsW, CmpsW, StosW, ScasW;
  }

  /** MOV r, imm, opcode 0xB8 + i: the word after the opcode. */
  lemma MoveImmediate(s: Cpu, ps: seq<uint8>, i: RegisterIndex)
    requires Prefixed(s, ps, 0xB8 + i)
    ensures
      var a, n := At(s, ps, 1), Size(ps);
      if Mapped(s.memory, a, n) then
        Cycle(s) == Ok(Next(s, ps, 0xB8 + i, n + 1).(
          regs := s.regs[i := Assigned(s.regs[i], WordAt(s.memory, a, n), Narrow(ps))]))
      else Cycle(s) == Fault(Started(s, ps, 0xB8 + i), MemoryFault)
  {
    hide Cycle, Basic, Prefixed, Mapped, Get, ReadCode, Assigned, MovRImm;
    var t, a, n := Started(s, ps, 0xB8 + i), At(s, ps, 1), Size(ps);
    MovHandlers(t);
    FetchesAt(s, ps, 0xB8 + i, 1, n);
    MoveHandler(t, i);
    if Mapped(s.memory, a, n) {
      Ends(s, ps, 0xB8 + i, n + 1, MovRImm(t, i).value);
    } else {
      Faults(s, ps, 0xB8 + i, t, MemoryFault);
    }
  }

  lemma MoveHandler(t: Cpu, i: RegisterIndex)
    ensures
      MovRImm(t, i) ==
        match ReadCode(t, 1, OperandSize(t))
        case Ok(v) => Ok(Skip(t, OperandSize(t)).(regs := t.regs[i := Assigned(t.regs[i], v, t.operandSize16)]))
        case Fault(u, cause) => Fault(u, cause)
  {
    hide ReadCode, Assigned, SetReg;
    if ReadCode(t, 1, OperandSize(t)).Ok? {
      SetRegAssigns(t, i, ReadCode(t, 1, OperandSize(t)).value);
    }
  }

  lemma NoOperation(s: Cpu, ps: seq<uint8>)
    requires Prefixed(s, ps, 0x90)
    ensures Cycle(s) == Ok(Next(s, ps, 0x90, 1))
  {
    hide Cycle, Basic, Prefixed;
    MovHandlers(Started(s, ps, 0x90));
    SkipNothing(Started(s, ps, 0x90));
    Ends(s, ps, 0x90, 1, Started(s, ps, 0x90));
  }

  lemma SkipNothing(t: Cpu)
    ensures Skip(t, 0) == t
  {
  }

  // ----- Strings -----

  /** Where ESI and EDI point. */
  ghost function Source(s: Cpu, ps: seq<uint8>): uint32 { RegisterValue(s, ps, ESI) }

  ghost function Destination(s: Cpu, ps: seq<uint8>): uint32 { RegisterValue(s, ps, EDI) }

  /** Both pointers one element further, backwards when DF is set. */
  ghost function Strode(s: Cpu, ps: seq<uint8>): Registers {
    var d: int := if s.freg.df then 0 - Size(ps) else Size(ps);
    s.regs[ESI := Bump(s.regs[ESI], d, Narrow(ps))][EDI := Bump(s.regs[EDI], d, Narrow(ps))]
  }

  lemma IndicesMove(s: Cpu, ps: seq<uint8>, t: Cpu)
    requires t.regs == s.regs && t.freg.df == s.freg.df && t.operandSize16 == Narrow(ps)
    ensures SetIndex(t) == t.(regs := Strode(s, ps))
  {
    hide LowHalf;
    HalfMoves(t.regs[ESI], Stride(t));
    HalfMoves(t.regs[EDI], Stride(t));
  }

  /** MOVS copies one element. */
  lemma MoveString(s: Cpu, ps: seq<uint8>)
    requires Prefixed(s, ps, 0xA5)
    ensures
      var n, src, dst := Size(ps), Source(s, ps), Destination(s, ps);
      if Mapped(s.memory, src, n) && Writable(s.memory, dst, n) then
        Cycle(s) == Ok(Next(s, ps, 0xA5, 1).(memory := Put(s.memory, dst, n, Get(s.memory, src, n)), regs := Strode(s, ps)))
      else Cycle(s) == Fault(Started(s, ps, 0xA5), MemoryFault)
  {
    hide Cycle, Basic, Prefixed, Mapped, Writable, Get, Put, Strode, StringOp, Source, Destination;
    var t, n, src, dst := Started(s, ps, 0xA5), Size(ps), Source(s, ps), Destination(s, ps);
    MovHandlers(t);
    MoveStringHandler(s, ps);
    if Mapped(s.memory, src, n) && Writable(s.memory, dst, n) {
      SkipNothing(t);
      Ends(s, ps, 0xA5, 1, StringOp(t, 0xA5).value);
    } else {
      Faults(s, ps, 0xA5, t, MemoryFault);
    }
  }

  lemma MoveStringHandler(s: Cpu, ps: seq<uint8>)
    ensures
      var t, n, src, dst := Started(s, ps, 0xA5), Size(ps), Source(s, ps), Destination(s, ps);
      StringOp(t, 0xA5) ==
        if Mapped(s.memory, src, n) && Writable(s.memory, dst, n) then
          Ok(t.(memory := Put(s.memory, dst, n, Get(s.memory, src, n)), regs := Strode(s, ps)))
        else Fault(t, MemoryFault)
  {
    hide Mapped, Writable, Get, Put, SetIndex, Strode;
    var t, n, src, dst := Started(s, ps, 0xA5), Size(ps), Source(s, ps), Destination(s, ps);
    if Mapped(s.memory, src, n) && Writable(s.memory, dst, n) {
      var u := t.(memory := Put(s.memory, dst, n, Get(s.memory, src, n)));
      IndicesMove(s, ps, u);
      assert StringOp(t, 0xA5) == Ok(SetIndex(u));
    }
  }

  /** STOS stores the accumulator. */
  lemma StoreString(s: Cpu, ps: seq<uint8>)
    requires Prefixed(s, ps, 0xAB)
    ensures
      var n, dst := Size(ps), Destination(s, ps);
      if Writable(s.memory, dst, n) then
        Cycle(s) == Ok(Next(s, ps, 0xAB, 1).(
          memory := Put(s.memory, dst, n, RegisterValue(s, ps, EAX)), regs := Strode(s, ps)))
      else Cycle(s) == Fault(Started(s, ps, 0xAB), MemoryFault)
  {
    hide Cycle, Basic, Prefixed, Writable, Put, Strode, StringOp, Destination, RegisterValue;
    var t, n, dst := Started(s, ps, 0xAB), Size(ps), Destination(s, ps);
    MovHandlers(t);
    StoreStringHandler(s, ps);
    if Writable(s.memory, dst, n) {
      SkipNothing(t);
      Ends(s, ps, 0xAB, 1, StringOp(t, 0xAB).value);
    } else {
      Faults(s, ps, 0xAB, t, MemoryFault);
    }
  }

  lemma StoreStringHandler(s: Cpu, ps: seq<uint8>)
    ensures
      var t, n, dst := Started(s, ps, 0xAB), Size(ps), Destination(s, ps);
      StringOp(t, 0xAB) ==
        if Writable(s.memory, dst, n) then
          Ok(t.(memory := Put(s.memory, dst, n, RegisterValue(s, ps, EAX)), regs := Strode(s, ps)))
        else Fault(t, MemoryFault)
  {
    hide Writable, Put, SetIndex, Strode;
    var t, n, dst := Started(s, ps, 0xAB), Size(ps), Destination(s, ps);
    if Writable(s.memory, dst, n) {
      var u := t.(memory := Put(s.memory, dst, n, RegisterValue(s, ps, EAX)));
      IndicesMove(s, ps, u);
      assert StringOp(t, 0xAB) == Ok(SetIndex(u));
    }
  }

  /** What CMPS (0xA7) and SCAS (0xAF) have to the left. */
  ghost predicate Comparable(s: Cpu, ps: seq<uint8>, op: uint8) {
    && Mapped(s.memory, At(s, ps, -1), 1) && Mapped(s.memory, Destination(s, ps), Size(ps))
    && (op == 0xA7 ==> Mapped(s.memory, Source(s, ps), Size(ps)))
  }

  ghost function LeftSide(s: Cpu, ps: seq<uint8>, op: uint8): uint32
    requires Comparable(s, ps, op)
  {
    if op == 0xA7 then WordAt(s.memory, Source(s, ps), Size(ps)) else RegisterValue(s, ps, EAX)
  }

  ghost function RightSide(s: Cpu, ps: seq<uint8>, op: uint8): uint32
    requires Comparable(s, ps, op)
  {
    WordAt(s.memory, Destination(s, ps), Size(ps))
  }

  /** The byte before the opcode looks like a REP. */
  ghost predicate LooksRepeated(s: Cpu, ps: seq<uint8>)
    requires Mapped(s.memory, At(s, ps, -1), 1)
  {
    s.memory.bytes[At(s, ps, -1)] in {0xF2, 0xF3}
  }

  /** CMPS and SCAS set the flags of left minus right, move both pointers, and set the comparison mark when the byte
      before the opcode looks like a REP. */
  lemma CompareString(s: Cpu, ps: seq<uint8>, op: uint8)
    requires (op == 0xA7 || op == 0xAF) && Prefixed(s, ps, op) && Comparable(s, ps, op)
    ensures Cycle(s).Ok?
    ensures
      var l, r, g := LeftSide(s, ps, op), RightSide(s, ps, op), Cycle(s).value.freg;
      && IsDifference(s.freg, l, r, Narrow(ps), (l as int - r as int) % Modulus(Narrow(ps)), g)
      && Cycle(s) == Ok(Next(s, ps, op, 1).(
           freg := g, regs := Strode(s, ps), stringCompares := s.stringCompares || LooksRepeated(s, ps)))
  {
    hide Cycle, Basic, Prefixed, Strode, StringOp, Sub, IsDifference, LooksRepeated, Comparable, LeftSide, RightSide;
    assert Mapped(s.memory, At(s, ps, -1), 1) by {
      PrecedingMapped(s, ps, op);
    }
    var t := Started(s, ps, op);
    MovHandlers(t);
    CompareHandler(s, ps, op);
    SidesFit(s, ps, op);
    SubMeans(s.freg, LeftSide(s, ps, op), RightSide(s, ps, op), Narrow(ps));
    SkipNothing(t);
    Ends(s, ps, op, 1, StringOp(t, op).value);
  }

  lemma PrecedingMapped(s: Cpu, ps: seq<uint8>, op: uint8)
    requires Comparable(s, ps, op)
    ensures Mapped(s.memory, At(s, ps, -1), 1)
  {
  }

  lemma CompareHandler(s: Cpu, ps: seq<uint8>, op: uint8)
    requires (op == 0xA7 || op == 0xAF) && Comparable(s, ps, op)
    ensures
      var t := Started(s, ps, op);
      StringOp(t, op) == Ok(t.(
        freg := Sub(s.freg, LeftSide(s, ps, op), RightSide(s, ps, op), Narrow(ps)).freg,
        regs := Strode(s, ps), stringCompares := s.stringCompares || LooksRepeated(s, ps)))
  {
    hide Get, SetIndex, Strode, Sub, ReadCode8;
    var t, l, r := Started(s, ps, op), LeftSide(s, ps, op), RightSide(s, ps, op);
    PrecedingByte(s, ps, op);
    KeepsDirection(s.freg, l, r, Narrow(ps));
    var u := t.(freg := Sub(s.freg, l, r, Narrow(ps)).freg, stringCompares := s.stringCompares || LooksRepeated(s, ps));
    IndicesMove(s, ps, u);
    assert StringOp(t, op) == Ok(SetIndex(u));
  }

  lemma KeepsDirection(f: Flags, l: uint32, r: uint32, low: bool)
    ensures Sub(f, l, r, low).freg.df == f.df
  {
  }

  lemma PrecedingByte(s: Cpu, ps: seq<uint8>, op: uint8)
    requires Mapped(s.memory, At(s, ps, -1), 1)
    ensures ReadCode8(Started(s, ps, op), -1) == Ok(s.memory.bytes[At(s, ps, -1)])
  {
    hide Get;
    WrapAdd(s.eip + |ps|, -1);
    OneByte(s.memory, At(s, ps, -1));
  }

  lemma SidesFit(s: Cpu, ps: seq<uint8>, op: uint8)
    requires Comparable(s, ps, op)
    ensures LeftSide(s, ps, op) < Modulus(Narrow(ps)) && RightSide(s, ps, op) < Modulus(Narrow(ps))
  {
    hide Mapped, Get;
    WordBound(s.memory, Destination(s, ps), Narrow(ps));
    if op == 0xA7 {
      WordBound(s.memory, Source(s, ps), Narrow(ps));
    }
  }
}
