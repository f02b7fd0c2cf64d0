/**
  How the mark of a string comparison goes stale.  CMPS and SCAS set it when the byte before them is a
  REP prefix, whatever instruction that byte belongs to, and only REP clears it: a plain comparison
  after such a byte leaves it set for the next REP, even one that copies.
*/
module StaleMarks {
  import opened Words
  import opened FlatMemory
  import opened Arithmetic
  import opened CpuState
  import opened Isa
  import opened PrefixChains
  import opened RepSteps
  import opened RepRuns
  import RepSearch

  /** MOV EAX, 0xF3000000, whose last byte looks like a REP, and a plain CMPS. */
  const PROGRAM: seq<uint8> := [0xB8, 0x00, 0x00, 0x00, 0xF3, 0xA7]

  /** The program is at `s`, followed by the repeated instruction `c`, and the operands of CMPS are mapped. */
  ghost predicate Loaded(s: Cpu, c: RepCode) {
    && Flat(s) && c.Valid() && s.eip + 6 <= 0x1_0000_0000
    && CodeAt(s.memory, s.eip, PROGRAM + c.Bytes())
    && Mapped(s.memory, s.regs[ESI], 4) && Mapped(s.memory, s.regs[EDI], 4)
  }

  lemma ProgramByte(s: Cpu, c: RepCode, i: nat)
    requires Loaded(s, c) && i < 6
    ensures s.eip + i in s.memory.bytes && s.memory.bytes[s.eip + i] == PROGRAM[i]
  {
    assert (PROGRAM + c.Bytes())[i] == PROGRAM[i];
    assert ByteAt(s.memory, s.eip + i, PROGRAM[i]);
  }

  /** The MOV changes EAX and leaves `eip` on the CMPS. */
  lemma MovCycle(s: Cpu, c: RepCode)
    requires Loaded(s, c)
    ensures Cycle(s).Ok?
    ensures
      var t := Cycle(s).value;
      && t.eip == Wrap32(s.eip + 5) && t.memory == s.memory && t.freg == s.freg && Flat(t)
      && t.regs == s.regs[EAX := t.regs[EAX]]
  {
    hide Cycle, Get, CodeByte;
    ProgramByte(s, c, 0);
    OneByte(s, 0, 0xB8);
    UnprefixedCycle(s, 0xB8);
    var b := Begun(s, 0xB8);
    forall x | s.eip + 1 <= x < s.eip + 5
      ensures x in s.memory.bytes
    {
      ProgramByte(s, c, x - s.eip);
    }
    assert Mapped(s.memory, Wrap32(s.eip + 1), 4);
    assert Basic(b) == MovRImm(b, EAX);
    WrapAdd(s.eip + 4, 1);
  }

  lemma OneByte(s: Cpu, i: nat, b: uint8)
    requires ByteAt(s.memory, s.eip + i, b)
    ensures CodeByte(s, i) == Ok(b)
  {
    FetchByte(s, i, b);
  }

  /** A string pointer one double word further. */
  ghost function Moved(s: Cpu, i: RegisterIndex): uint32 { Wrap32(s.regs[i] as int + if s.freg.df then -4 else 4) }

  /** What CMPS and SCAS compare. */
  ghost predicate EqualOperands(s: Cpu, op: uint8)
    requires Mapped(s.memory, s.regs[EDI], 4) && (op == RepSearch.CMPS ==> Mapped(s.memory, s.regs[ESI], 4))
  {
    (if op == RepSearch.CMPS then Get(s.memory, s.regs[ESI], 4) else s.regs[EAX] as int) == Get(s.memory, s.regs[EDI], 4)
  }

  /** A plain comparison after a byte that looks like a REP leaves the mark set. */
  lemma PlainCompareMarks(s: Cpu, op: uint8, prev: uint8)
    requires Flat(s) && CodeByte(s, 0) == Ok(op) && (op == RepSearch.CMPS || op == RepSearch.SCAS)
    requires ReadCode8(s, -1) == Ok(prev) && (prev == REPE || prev == REPNE)
    requires Mapped(s.memory, s.regs[EDI], 4) && (op == RepSearch.CMPS ==> Mapped(s.memory, s.regs[ESI], 4))
    ensures Cycle(s).Ok?
    ensures
      var u := Cycle(s).value;
      && u.stringCompares && (u.freg.zf <==> EqualOperands(s, op))
      && u.eip == Wrap32(s.eip + 1) && u.memory == s.memory && u.freg.df == s.freg.df && Flat(u)
      && u.regs == s.regs[ESI := Moved(s, ESI)][EDI := Moved(s, EDI)]
  {
    hide Cycle, CodeByte, Get, Sub;
    var t := Begun(s, op);
    UnprefixedCycle(s, op);
    assert MarkCompare(t) == Ok(t.(stringCompares := true));
    var left := if op == RepSearch.CMPS then Get(s.memory, s.regs[ESI], 4) else s.regs[EAX] as int;
    GetFits(s.memory, s.regs[EDI], 4);
    if op == RepSearch.CMPS {
      GetFits(s.memory, s.regs[ESI], 4);
      assert Basic(t) == CmpsW(t);
    } else {
      assert Basic(t) == ScasW(t);
    }
    RepSearch.CompareZero(s.freg, left, Get(s.memory, s.regs[EDI], 4), false);
  }

  /** Two instructions later the REP is due, with the mark set and ZF telling whether the two words are equal:
      whatever string instruction it repeats, it is cut short exactly when elements are due and ZF is on
      the exit side. */
  lemma ProgramLeavesMark(s: Cpu, c: RepCode)
    requires Loaded(s, c)
    ensures Run(s, 2).Ok?
    ensures
      var u := Run(s, 2).value;
      && u.stringCompares && Ready(u, c) && u.memory == s.memory && u.freg.df == s.freg.df
      && u.eip == Wrap32(s.eip + 6) && Count(u, c) == Count(s, c)
      && u.regs[ESI] == Moved(s, ESI) && u.regs[EDI] == Moved(s, EDI)
      && (CutShort(u, c) <==> Count(s, c) > 0 && EqualOperands(s, RepSearch.CMPS) == (c.rep == REPNE))
  {
    hide Cycle, Get, Mapped, CodeByte, ReadCode8;
    MovCycle(s, c);
    var t := Cycle(s).value;
    ProgramByte(s, c, 4);
    ProgramByte(s, c, 5);
    OneByte(t, 0, 0xA7);
    assert Wrap32(t.eip as int - 1) == s.eip + 4;
    FetchByteAt(t, -1, s.eip + 4, REPE);
    PlainCompareMarks(t, RepSearch.CMPS, REPE);
    var u := Cycle(t).value;
    assert Run(t, 1) == Run(u, 0);
    CodeAfterProgram(s, c);
  }

  lemma CodeAfterProgram(s: Cpu, c: RepCode)
    requires Loaded(s, c)
    ensures CodeAt(s.memory, Wrap32(s.eip + 6), c.Bytes())
  {
    forall i | 0 <= i < |c.Bytes()|
      ensures ByteAt(s.memory, Wrap32(s.eip + 6) + i, c.Bytes()[i])
    {
      var j := i + 6;
      assert (PROGRAM + c.Bytes())[j] == c.Bytes()[i];
      assert ByteAt(s.memory, s.eip + j, c.Bytes()[i]);
      WrapAdd(s.eip + 6, i);
    }
  }

  // ----- An input on which REP MOVS does not copy everything -----

  const REP_MOVS := RepCode([], REPE, 0xA5)

  /** The program and a REP MOVS, with two unequal words behind them and room for two copies. */
  function Image(x: nat): uint8 {
    if x < 6 then PROGRAM[x] else if x == 6 then REPE else if x == 7 then 0xA5 else if x == 8 then 1 else if x == 12 then 2 else 0
  }

  /** ECX asks for two elements, ESI and EDI point at the words. */
  ghost function Example(): Cpu {
    Cpu([0, 2, 0, 0, 0, 0, 8, 12], 0, Flags(false, false, false, false, false, false, false, false),
        false, false, false, false, 0, 0, 0, 0, Memory(map x: int | 0 <= x < 24 :: Image(x), {}))
  }

  lemma ExampleLoaded()
    ensures Loaded(Example(), REP_MOVS) && !EqualOperands(Example(), RepSearch.CMPS)
  {
    hide Get, CodeAt;
    var s := Example();
    ExampleCode();
    SmallWord(s.memory, 8, 1);
    SmallWord(s.memory, 12, 2);
  }

  lemma ExampleCode()
    ensures CodeAt(Example().memory, 0, PROGRAM + REP_MOVS.Bytes())
  {
    var m, code := Example().memory, PROGRAM + REP_MOVS.Bytes();
    assert REP_MOVS.Bytes() == [REPE, 0xA5];
    forall i | 0 <= i < |code|
      ensures ByteAt(m, 0 + i, code[i])
    {
      assert i in m.bytes && m.bytes[i] == Image(i);
    }
  }

  /** No prefix, no jump: after three instructions the REP MOVS is done with one of its two elements still to
      copy. */
  lemma CopyCutShort()
    ensures Run(Example(), 3).Ok?
    ensures Run(Example(), 3).value.eip == 8 && Run(Example(), 3).value.regs[ECX] == 1
  {
    hide Run, Cycle, Loaded, EqualOperands;
    var s, c := Example(), REP_MOVS;
    ExampleLoaded();
    ProgramLeavesMark(s, c);
    var u := Run(s, 2).value;
    RunSnoc(s, 2);
    RoomForTwo(u, s);
    RepMovsRun(u, c, 2);
    RunOne(u);
    IterationRegisters(u, c, 1);
  }

  lemma RunOne(s: Cpu)
    requires Run(s, 1).Ok?
    ensures Run(s, 1) == Cycle(s)
  {
    hide Cycle;
    if Cycle(s).Ok? {
      assert Run(s, 1) == Run(Cycle(s).value, 0);
    }
  }

  lemma RoomForTwo(u: Cpu, s: Cpu)
    requires s == Example() && u.memory == s.memory && u.eip == 6 && !u.freg.df
    requires u.regs[ESI] == 12 && u.regs[EDI] == 16
    ensures SrcMapped(u, REP_MOVS, 2) && DstWritable(u, REP_MOVS, 2) && SparesCode(u, REP_MOVS, 2)
  {
    assert forall k :: 0 <= k < 2 ==> Src(u, REP_MOVS, k) == 12 + 4 * k && Dst(u, REP_MOVS, k) == 16 + 4 * k;
  }
}
