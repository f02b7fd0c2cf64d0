/** The byte after a REP: string opcodes, RET, and everything else. */
module RepOpcodes {
  import opened Words
  import opened FlatMemory
  import opened CpuState
  import opened Isa
  import opened PrefixChains
  import opened Pointers
  import opened Instructions
  import StackInstructions

  const REPNE := 0xF2
  const REPE := 0xF3
  const RET := 0xC3

  /** INS, OUTS; MOVS, CMPS; STOS, LODS, SCAS. */
  predicate Repeatable(b: uint8) { 0x6C <= b <= 0x6F || 0xA4 <= b <= 0xA7 || 0xAA <= b <= 0xAF }

  /** A REP with the byte `b` after it. */
  ghost predicate Repeats(s: Cpu, ps: seq<uint8>, rep: uint8, b: uint8) {
    (rep == REPNE || rep == REPE) && Prefixed(s, ps, rep) && ByteAt(s.memory, s.eip + |ps| + 1, b)
  }

  lemma RepHandler(s: Cpu, ps: seq<uint8>, rep: uint8, b: uint8)
    requires Repeats(s, ps, rep, b)
    ensures Basic(Started(s, ps, rep)) == Rep(Started(s, ps, rep)) && ReadCode8(Started(s, ps, rep), 1) == Ok(b)
  {
    hide Rep, ReadCode8, Prefixed;
    var t := Started(s, ps, rep);
    WrapAdd(s.eip + |ps|, 1);
    assert [b][0] == b;
    FetchByte(t, 1, b);
  }

  lemma SameOpcodes(b: uint8)
    ensures IsStringOpcode(b) <==> Repeatable(b)
  {
  }

  /** REP before RET does nothing, whatever the counter: `eip` is on the RET, and nothing else has changed. */
  lemma RepBeforeReturn(s: Cpu, ps: seq<uint8>, rep: uint8)
    requires Repeats(s, ps, rep, RET)
    ensures Cycle(s) == Ok(Next(s, ps, RET, 1))
  {
    hide Cycle, Basic, ReadCode8, Prefixed;
    RepHandler(s, ps, rep, RET);
    Ends(s, ps, rep, 1, Started(s, ps, rep).(opbyte := RET));
  }

  /** What a RET does with all its operands of 32 bits. */
  ghost predicate Returned(s: Cpu, u: Cpu) {
    && Mapped(s.memory, s.regs[ESP], 4) && u.eip == Get(s.memory, s.regs[ESP], 4)
    && u.regs == s.regs[ESP := Wrap32(s.regs[ESP] as int + 4)]
    && u.memory == s.memory && u.freg == s.freg && u.stringCompares == s.stringCompares && Flat(u)
  }

  /** Two instructions of an unprefixed REP RET are one RET. */
  lemma RepReturns(s: Cpu, rep: uint8)
    requires Repeats(s, [], rep, RET) && Mapped(s.memory, s.regs[ESP], 4)
    ensures Run(s, 2).Ok? && Returned(s, Run(s, 2).value)
  {
    hide Cycle, Mapped, Get;
    RepBeforeReturn(s, [], rep);
    var t := Cycle(s).value;
    ReturnIsNext(s, rep);
    StackInstructions.Return(t, []);
    assert Run(t, 1) == Run(Cycle(t).value, 0);
  }

  lemma ReturnIsNext(s: Cpu, rep: uint8)
    requires Repeats(s, [], rep, RET)
    ensures Prefixed(Next(s, [], RET, 1), [], RET)
  {
    var t, code := Next(s, [], RET, 1), [] + [RET];
    assert |code| == 1 && code[0] == RET;
    WrapAdd(s.eip + 1, 0);
    assert ByteAt(t.memory, t.eip + 0, code[0]);
  }

  /** A REP with no iteration due ends after the string opcode, whichever of the fourteen it is. */
  lemma RepOfNothing(s: Cpu, ps: seq<uint8>, rep: uint8, b: uint8)
    requires Repeats(s, ps, rep, b) && Repeatable(b) && Pointer(s.regs[ECX], ADDRESS_SIZE in ps) == 0
    ensures Cycle(s) == Ok(Next(s, ps, b, 2))
  {
    hide Cycle, Basic, ReadCode8, Prefixed, StringOp, IsStringOpcode;
    RepHandler(s, ps, rep, b);
    SameOpcodes(b);
    assert Rep(Started(s, ps, rep)) == Ok(Skip(Started(s, ps, rep).(opbyte := b), 1));
    Ends(s, ps, rep, 2, Skip(Started(s, ps, rep).(opbyte := b), 1));
  }

  /** Any other byte is an unknown opcode, with `eip` on it, whatever the counter. */
  lemma RepOfOther(s: Cpu, ps: seq<uint8>, rep: uint8, b: uint8)
    requires Repeats(s, ps, rep, b) && !Repeatable(b) && b != RET
    ensures Cycle(s) == Fault(Started(s, ps, rep).(eip := At(s, ps, 1), opbyte := b), UnknownOpcode)
  {
    hide Cycle, Basic, ReadCode8, Prefixed, IsStringOpcode, StringOp;
    RepHandler(s, ps, rep, b);
    SameOpcodes(b);
    WrapAdd(s.eip + |ps|, 1);
    Faults(s, ps, rep, Started(s, ps, rep).(eip := At(s, ps, 1), opbyte := b), UnknownOpcode);
  }
}
