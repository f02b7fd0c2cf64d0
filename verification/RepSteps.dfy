/**
  One cycle of a repeated string instruction, with any size prefixes before the REP.  REP does not
  loop inside an instruction: each cycle does one element and sends `eip` back to the start of the
  prefix chain, so the repetition is a property of runs.
*/
module RepSteps {
  import opened Words
  import opened FlatMemory
  import opened Arithmetic
  import opened CpuState
  import opened Isa
  import opened PrefixChains
  import opened Pointers

  const REPNE := 0xF2
  const REPE := 0xF3

  /** A repeated string instruction: size prefixes, REP, string opcode. */
  datatype RepCode = RepCode(ps: seq<uint8>, rep: uint8, op: uint8) {
    predicate Valid() {
      && ArePrefixes(ps) && |ps| < ADDRESSES
      && (rep == REPNE || rep == REPE)
      && op in {0xA5, 0xA7, 0xAB, 0xAF}
    }

    function Bytes(): seq<uint8> { ps + [rep] + [op] }

    predicate Op16() { OPERAND_SIZE in ps }

    predicate Addr16() { ADDRESS_SIZE in ps }

    function Size(): (n: nat)
      ensures n == 2 || n == 4
    {
      if Op16() then 2 else 4
    }
  }

  /** `eip` is on the first byte of the instruction, between instructions, in 32-bit mode. */
  ghost predicate Ready(s: Cpu, c: RepCode) {
    c.Valid() && Flat(s) && CodeAt(s.memory, s.eip, c.Bytes())
  }

  /** The iterations that are due. */
  ghost function Count(s: Cpu, c: RepCode): nat { Pointer(s.regs[ECX], c.Addr16()) }

  /** How far element `k` is from the first; the direction flag decides the sign. */
  function Offset(k: int, c: RepCode, df: bool): int {
    if c.Op16() then if df then -2 * k else 2 * k
    else if df then -4 * k else 4 * k
  }

  ghost function Src(s: Cpu, c: RepCode, k: nat): uint32 {
    Pointer(Bump(s.regs[ESI], Offset(k, c, s.freg.df), c.Op16()), c.Op16())
  }

  ghost function Dst(s: Cpu, c: RepCode, k: nat): uint32 {
    Pointer(Bump(s.regs[EDI], Offset(k, c, s.freg.df), c.Op16()), c.Op16())
  }

  /** Both pointers moved by `k` elements and the counter down by `k`. */
  ghost function RegsAfter(regs: Registers, c: RepCode, df: bool, k: nat): Registers {
    regs[ECX := Bump(regs[ECX], 0 - k, c.Addr16())]
        [ESI := Bump(regs[ESI], Offset(k, c, df), c.Op16())]
        [EDI := Bump(regs[EDI], Offset(k, c, df), c.Op16())]
  }

  /** The state when `k` iterations of the instruction are done and `eip` is back on its start.  Each of
      them clears the mark by which a string handler announces a comparison. */
  ghost function After(s: Cpu, c: RepCode, k: nat, m: Memory, f: Flags): Cpu {
    s.(regs := RegsAfter(s.regs, c, s.freg.df, k), memory := m, freg := f,
       stringCompares := k == 0 && s.stringCompares,
       opbyte := if k == 0 then s.opbyte else c.op,
       beginEip := if k == 0 then s.beginEip else s.eip,
       gasUsed := s.gasUsed + k)
  }

  /** `eip` past the whole instruction. */
  ghost function Past(s: Cpu, c: RepCode): uint32 { Wrap32(s.eip + |c.ps| + 2) }

  /** The state after the cycle that finds the counter at zero. */
  ghost function Finished(s: Cpu, c: RepCode): Cpu {
    s.(eip := Past(s, c), opbyte := c.op, beginEip := s.eip, gasUsed := s.gasUsed + 1)
  }

  /** The exit test of REP passes on a mark left by an earlier instruction and on the flags as they are, so
      that the first iteration is the last one. */
  ghost predicate CutShort(s: Cpu, c: RepCode) {
    s.stringCompares && Count(s, c) > 0 && s.freg.zf == (c.rep == REPNE)
  }

  lemma AfterNone(s: Cpu, c: RepCode)
    ensures After(s, c, 0, s.memory, s.freg) == s
  {
    BumpZero(s.regs[ECX], c.Addr16());
    BumpZero(s.regs[ESI], c.Op16());
    BumpZero(s.regs[EDI], c.Op16());
    assert RegsAfter(s.regs, c, s.freg.df, 0) == s.regs;
  }

  lemma OffsetAdd(k: int, c: RepCode, df: bool)
    ensures Offset(k, c, df) + Offset(1, c, df) == Offset(k + 1, c, df)
  {
  }

  lemma AfterOneMore(s: Cpu, c: RepCode, k: nat, m: Memory, f: Flags, m': Memory, f': Flags)
    requires f.df == s.freg.df
    ensures After(After(s, c, k, m, f), c, 1, m', f') == After(s, c, k + 1, m', f')
  {
    hide Bump, Offset;
    var t, df := After(s, c, k, m, f), s.freg.df;
    OffsetAdd(k, c, df);
    BumpAdd(s.regs[ECX], 0 - k, -1, c.Addr16());
    BumpAdd(s.regs[ESI], Offset(k, c, df), Offset(1, c, df), c.Op16());
    BumpAdd(s.regs[EDI], Offset(k, c, df), Offset(1, c, df), c.Op16());
    assert RegsAfter(t.regs, c, s.freg.df, 1) == RegsAfter(s.regs, c, s.freg.df, k + 1);
  }

  lemma CountAfter(s: Cpu, c: RepCode, k: nat, m: Memory, f: Flags)
    requires k <= Count(s, c)
    ensures Count(After(s, c, k, m, f), c) == Count(s, c) - k
  {
    PointerBump(s.regs[ECX], 0 - k, c.Addr16());
  }

  lemma ElementsAfter(s: Cpu, c: RepCode, k: nat, m: Memory, f: Flags)
    requires f.df == s.freg.df
    ensures Src(After(s, c, k, m, f), c, 0) == Src(s, c, k) && Dst(After(s, c, k, m, f), c, 0) == Dst(s, c, k)
  {
    BumpZero(Bump(s.regs[ESI], Offset(k, c, s.freg.df), c.Op16()), c.Op16());
    BumpZero(Bump(s.regs[EDI], Offset(k, c, s.freg.df), c.Op16()), c.Op16());
  }

  // ----- The REP handler -----

  /** The state in which the string handler runs. */
  ghost function AtString(s: Cpu, c: RepCode): Cpu {
    Skip(Started(s, c.ps, c.rep).(opbyte := c.op), 1)
  }

  lemma StringByte(s: Cpu, c: RepCode)
    requires Ready(s, c)
    ensures Prefixed(s, c.ps, c.rep)
    ensures ReadCode8(Started(s, c.ps, c.rep), 1) == Ok(c.op)
    ensures ReadCode8(AtString(s, c), -1) == Ok(c.rep)
  {
    hide Wrap32, ReadCode8;
    var bs, n := c.Bytes(), |c.ps|;
    var t, u := Started(s, c.ps, c.rep), AtString(s, c);
    assert forall i :: 0 <= i <= n ==> bs[i] == (c.ps + [c.rep])[i];
    assert bs[n] == c.rep && bs[n + 1] == c.op;
    assert ByteAt(s.memory, s.eip + n, c.rep) && ByteAt(s.memory, s.eip + (n + 1), c.op);
    WrapAdd(s.eip + n, 1);
    WrapAdd(s.eip + n + 1, -1);
    FetchByteAt(t, 1, s.eip + n + 1, c.op);
    FetchByteAt(u, -1, s.eip + n, c.rep);
  }

  lemma FetchByteAt(t: Cpu, index: int, a: int, b: uint8)
    requires ByteAt(t.memory, a, b) && Wrap32(t.eip + index) == Wrap32(a)
    ensures ReadCode8(t, index) == Ok(b)
  {
    hide ReadCode8;
    FetchByte(t, index, b);
  }

  /** What a cycle of REP leaves of the state `u` in which the string handler returned. */
  ghost function Returned(s: Cpu, c: RepCode, u: Cpu): Cpu {
    Skip(RepNext(CountDown(u), c.rep, Wrap32(s.eip + |c.ps|)), 1)
      .(operandSize16 := false, addressSize16 := false, gasUsed := s.gasUsed + 1)
  }

  lemma RepCycle(s: Cpu, c: RepCode)
    requires Ready(s, c)
    ensures Count(s, c) == 0 ==> Cycle(s) == Ok(Finished(s, c))
    ensures Count(s, c) > 0 && StringOp(AtString(s, c), c.op).Ok? ==>
              Cycle(s) == Ok(Returned(s, c, StringOp(AtString(s, c), c.op).value))
    ensures Count(s, c) > 0 && StringOp(AtString(s, c), c.op).Fault? ==> Cycle(s) == StringOp(AtString(s, c), c.op)
  {
    hide Cycle, StringOp, Ready, Rep, Returned, Finished, Handler;
    StringByte(s, c);
    PrefixedCycle(s, c.ps, c.rep);
    var t := Started(s, c.ps, c.rep);
    RepByte(s, c);
    BasicRep(t);
    if Count(s, c) == 0 {
      RepEnds(s, c);
    } else if StringOp(AtString(s, c), c.op).Ok? {
      RepGoesOn(s, c);
    } else {
      RepFaults(s, c);
    }
  }

  lemma RepByte(s: Cpu, c: RepCode)
    requires Ready(s, c)
    ensures c.Valid() && Started(s, c.ps, c.rep).opbyte == c.rep
    ensures Started(s, c.ps, c.rep).operandSize16 == c.Op16() && Started(s, c.ps, c.rep).addressSize16 == c.Addr16()
  {
  }

  /** The handler with no iteration due. */
  lemma RepEnds(s: Cpu, c: RepCode)
    requires c.Valid() && Flat(s) && Count(s, c) == 0
    requires ReadCode8(Started(s, c.ps, c.rep), 1) == Ok(c.op)
    ensures Rep(Started(s, c.ps, c.rep)).Ok?
    ensures
      Skip(Rep(Started(s, c.ps, c.rep)).value, 1)
        .(operandSize16 := false, addressSize16 := false, gasUsed := s.gasUsed + 1) == Finished(s, c)
  {
    hide StringOp, ReadCode8, Wrap32;
    WrapAdd(s.eip + |c.ps|, 1);
    WrapAdd(s.eip + |c.ps| + 1, 1);
  }

  /** The handler with an iteration due, which the string handler completes. */
  lemma RepGoesOn(s: Cpu, c: RepCode)
    requires c.Valid() && Flat(s) && Count(s, c) > 0 && StringOp(AtString(s, c), c.op).Ok?
    requires ReadCode8(Started(s, c.ps, c.rep), 1) == Ok(c.op)
    ensures Rep(Started(s, c.ps, c.rep)).Ok?
    ensures
      Skip(Rep(Started(s, c.ps, c.rep)).value, 1)
        .(operandSize16 := false, addressSize16 := false, gasUsed := s.gasUsed + 1)
        == Returned(s, c, StringOp(AtString(s, c), c.op).value)
  {
    hide StringOp, ReadCode8, RepNext, CountDown, Wrap32;
  }

  /** The handler with an iteration due, which the string handler does not complete. */
  lemma RepFaults(s: Cpu, c: RepCode)
    requires c.Valid() && Flat(s) && Count(s, c) > 0 && StringOp(AtString(s, c), c.op).Fault?
    requires ReadCode8(Started(s, c.ps, c.rep), 1) == Ok(c.op)
    ensures Rep(Started(s, c.ps, c.rep)) == StringOp(AtString(s, c), c.op)
  {
    hide StringOp, ReadCode8, Wrap32;
  }

  lemma BasicRep(t: Cpu)
    requires t.opbyte == REPNE || t.opbyte == REPE
    ensures Handler(t) == Rep(t)
  {
    hide Rep;
  }
}
