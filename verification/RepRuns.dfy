/**
  Whole runs of REP MOVS and REP STOS: they copy and fill element by element until the counter is
  zero.  Everything is stated for any size prefixes, both directions and pointers that may wrap
  around.
*/
module RepRuns {
  import opened Words
  import opened FlatMemory
  import opened Arithmetic
  import opened CpuState
  import opened Isa
  import opened PrefixChains
  import opened Pointers
  import opened RepSteps

  // ----- Pointer and counter updates -----

  /** What a returning string handler makes of its state: pointers, memory and flags, and whether it
      announced a comparison. */
  ghost function Strided(t: Cpu, c: RepCode, m: Memory, f: Flags, compares: bool): Cpu {
    var regs := t.regs[ESI := Bump(t.regs[ESI], Offset(1, c, t.freg.df), c.Op16())]
                      [EDI := Bump(t.regs[EDI], Offset(1, c, t.freg.df), c.Op16())];
    t.(regs := regs, memory := m, freg := f, stringCompares := compares)
  }

  lemma SetIndexStrides(t: Cpu, c: RepCode)
    requires t.operandSize16 == c.Op16()
    ensures SetIndex(t) == Strided(t, c, t.memory, t.freg, t.stringCompares)
  {
    hide LowHalf;
    var d := Stride(t);
    assert d == Offset(1, c, t.freg.df);
    HalfMoves(t.regs[ESI], d);
    HalfMoves(t.regs[EDI], d);
  }

  lemma CountDownBumps(t: Cpu)
    ensures CountDown(t) == t.(regs := t.regs[ECX := Bump(t.regs[ECX], -1, t.addressSize16)])
  {
    hide Bump;
    if t.addressSize16 {
      HalfCountDown(t);
    } else {
      FullCountDown(t);
    }
  }

  lemma HalfCountDown(t: Cpu)
    requires t.addressSize16
    ensures CountDown(t) == SetReg32(t, ECX, Bump(t.regs[ECX], -1, true))
  {
    hide LowHalf, Bump, Wrap16;
    HalfMoves(t.regs[ECX], -1);
  }

  lemma FullCountDown(t: Cpu)
    requires !t.addressSize16
    ensures CountDown(t) == SetReg32(t, ECX, Bump(t.regs[ECX], -1, false))
  {
    hide Wrap32;
  }

  /** The registers of one iteration, in the order the machine assigns them. */
  lemma IterationRegs(regs: Registers, c: RepCode, df: bool)
    ensures
      regs[ESI := Bump(regs[ESI], Offset(1, c, df), c.Op16())]
          [EDI := Bump(regs[EDI], Offset(1, c, df), c.Op16())]
          [ECX := Bump(regs[ECX], -1, c.Addr16())] == RegsAfter(regs, c, df, 1)
  {
  }

  /** A returning handler that announced no comparison, or one that does not end the search, closes an
      iteration; one that ends it leaves `eip` past the instruction. */
  lemma ReturnedAfter(s: Cpu, c: RepCode, m: Memory, f: Flags, compares: bool)
    requires Ready(s, c)
    ensures
      var r := Returned(s, c, Strided(AtString(s, c), c, m, f, compares));
      r == if compares && f.zf == (c.rep == REPNE) then After(s, c, 1, m, f).(eip := Past(s, c)) else After(s, c, 1, m, f)
  {
    hide CountDown, Bump, Offset, RegsAfter, Wrap32;
    var t := AtString(s, c);
    var u := Strided(t, c, m, f, compares);
    CountDownBumps(u);
    IterationRegs(s.regs, c, s.freg.df);
    assert CountDown(u).regs == RegsAfter(s.regs, c, s.freg.df, 1);
    EndAddresses(s.eip, |c.ps|);
  }

  /** Where the two ways out of REP leave `eip` once the cycle has stepped on. */
  lemma EndAddresses(eip: uint32, n: nat)
    ensures Wrap32(Wrap32(eip as int - 1) + 1) == eip
    ensures Wrap32(Wrap32(Wrap32(eip + n) + 1) + 1) == Wrap32(eip + n + 2)
  {
    WrapAdd(eip as int - 1, 1);
    WrapAdd(eip + n, 1);
    WrapAdd(eip + n + 1, 1);
  }

  // ----- Elements and what an iteration does with them -----

  ghost predicate SrcMapped(s: Cpu, c: RepCode, n: nat) {
    forall k :: 0 <= k < n ==> Mapped(s.memory, Src(s, c, k), c.Size())
  }

  ghost predicate DstMapped(s: Cpu, c: RepCode, n: nat) {
    forall k :: 0 <= k < n ==> Mapped(s.memory, Dst(s, c, k), c.Size())
  }

  ghost predicate DstWritable(s: Cpu, c: RepCode, n: nat) {
    forall k :: 0 <= k < n ==> Writable(s.memory, Dst(s, c, k), c.Size())
  }

  predicate Outside(x: int, a: int, n: nat) { x < a || a + n <= x }

  ghost function CodeAddress(s: Cpu, j: nat): uint32 { Wrap32(s.eip + j) }

  /** The element at `a` does not touch the instruction's own bytes. */
  ghost predicate Spares(s: Cpu, c: RepCode, a: int) {
    forall j :: 0 <= j < |c.Bytes()| ==> Outside(CodeAddress(s, j), a, c.Size())
  }

  ghost predicate SparesCode(s: Cpu, c: RepCode, n: nat) {
    forall k :: 0 <= k < n ==> Spares(s, c, Dst(s, c, k))
  }

  ghost predicate SameAddresses(m: Memory, m': Memory) {
    m'.bytes.Keys == m.bytes.Keys && m'.rom == m.rom
  }

  lemma MappedTransfers(m: Memory, m': Memory, a: int, n: nat)
    requires SameAddresses(m, m')
    ensures Mapped(m, a, n) <==> Mapped(m', a, n)
    ensures Writable(m, a, n) <==> Writable(m', a, n)
  {
    assert forall x :: x in m.bytes <==> x in m'.bytes;
  }

  /** The copy loop: `n` elements, one after the other. */
  ghost function Copied(s: Cpu, c: RepCode, n: nat): (m: Memory)
    requires SrcMapped(s, c, n) && DstWritable(s, c, n)
    ensures SameAddresses(s.memory, m)
  {
    if n == 0 then s.memory
    else
      var m := Copied(s, c, n - 1);
      MappedTransfers(s.memory, m, Src(s, c, n - 1), c.Size());
      MappedTransfers(s.memory, m, Dst(s, c, n - 1), c.Size());
      Put(m, Dst(s, c, n - 1), c.Size(), Get(m, Src(s, c, n - 1), c.Size()))
  }

  /** The fill loop. */
  ghost function Filled(s: Cpu, c: RepCode, n: nat): (m: Memory)
    requires DstWritable(s, c, n)
    ensures SameAddresses(s.memory, m)
  {
    if n == 0 then s.memory
    else
      var m := Filled(s, c, n - 1);
      MappedTransfers(s.memory, m, Dst(s, c, n - 1), c.Size());
      Put(m, Dst(s, c, n - 1), c.Size(), Accumulator(s, c))
  }

  ghost function Accumulator(s: Cpu, c: RepCode): uint32 { Pointer(s.regs[EAX], c.Op16()) }

  lemma MovsCycle(s: Cpu, c: RepCode)
    requires Ready(s, c) && c.op == 0xA5 && Count(s, c) > 0
    requires Mapped(s.memory, Src(s, c, 0), c.Size()) && Writable(s.memory, Dst(s, c, 0), c.Size())
    ensures
      var t := After(s, c, 1, Put(s.memory, Dst(s, c, 0), c.Size(), Get(s.memory, Src(s, c, 0), c.Size())), s.freg);
      Cycle(s) == Ok(if CutShort(s, c) then t.(eip := Past(s, c)) else t)
  {
    hide Cycle, Returned, SetIndex, Strided;
    RepCycle(s, c);
    ElementZero(s, c);
    var t := AtString(s, c);
    var m := Put(s.memory, Dst(s, c, 0), c.Size(), Get(s.memory, Src(s, c, 0), c.Size()));
    SetIndexStrides(t.(memory := m), c);
    assert StringOp(t, c.op) == MovsW(t) == Ok(SetIndex(t.(memory := m)));
    StridedMemory(t, c, m);
    ReturnedAfter(s, c, m, s.freg, s.stringCompares);
  }

  lemma ElementZero(s: Cpu, c: RepCode)
    ensures Src(s, c, 0) == Reg(AtString(s, c), ESI) && Dst(s, c, 0) == Reg(AtString(s, c), EDI)
    ensures Accumulator(s, c) == Reg(AtString(s, c), EAX)
  {
    BumpZero(s.regs[ESI], c.Op16());
    BumpZero(s.regs[EDI], c.Op16());
  }

  lemma StridedMemory(t: Cpu, c: RepCode, m: Memory)
    ensures Strided(t.(memory := m), c, m, t.freg, t.stringCompares) == Strided(t, c, m, t.freg, t.stringCompares)
  {
  }

  lemma StosCycle(s: Cpu, c: RepCode)
    requires Ready(s, c) && c.op == 0xAB && Count(s, c) > 0
    requires Writable(s.memory, Dst(s, c, 0), c.Size())
    ensures
      var t := After(s, c, 1, Put(s.memory, Dst(s, c, 0), c.Size(), Accumulator(s, c)), s.freg);
      Cycle(s) == Ok(if CutShort(s, c) then t.(eip := Past(s, c)) else t)
  {
    hide Cycle, Returned, SetIndex, Strided;
    RepCycle(s, c);
    ElementZero(s, c);
    var t := AtString(s, c);
    var m := Put(s.memory, Dst(s, c, 0), c.Size(), Accumulator(s, c));
    SetIndexStrides(t.(memory := m), c);
    assert StringOp(t, c.op) == StosW(t) == Ok(SetIndex(t.(memory := m)));
    StridedMemory(t, c, m);
    ReturnedAfter(s, c, m, s.freg, s.stringCompares);
  }

  // ----- Runs of REP MOVS and REP STOS -----

  /** An element write that spares the code leaves the instruction in place for the next cycle. */
  lemma StillReady(s: Cpu, c: RepCode, k: nat, m: Memory, a: int, v: nat, f: Flags)
    requires Ready(After(s, c, k, m, s.freg), c) && Spares(s, c, a) && Writable(m, a, c.Size())
    ensures Ready(After(s, c, k + 1, Put(m, a, c.Size(), v), f), c)
  {
    hide Put;
    var bs, m' := c.Bytes(), Put(m, a, c.Size(), v);
    forall i | 0 <= i < |bs|
      ensures ByteAt(m', s.eip + i, bs[i])
    {
      assert ByteAt(m, s.eip + i, bs[i]);
      assert Outside(CodeAddress(s, i), a, c.Size());
    }
  }

  /** An iteration leaves no mark behind, so only the first can be the last. */
  lemma NotCutShort(s: Cpu, c: RepCode, k: nat, m: Memory)
    requires k <= Count(s, c) && !CutShort(s, c)
    ensures !CutShort(After(s, c, k, m, s.freg), c)
  {
    CountAfter(s, c, k, m, s.freg);
  }

  lemma {:induction false} MovsIterations(s: Cpu, c: RepCode, k: nat)
    requires Ready(s, c) && c.op == 0xA5 && k <= Count(s, c) && (k > 0 ==> !CutShort(s, c))
    requires SrcMapped(s, c, k) && DstWritable(s, c, k) && SparesCode(s, c, k)
    ensures Run(s, k) == Ok(After(s, c, k, Copied(s, c, k), s.freg))
    ensures Ready(After(s, c, k, Copied(s, c, k), s.freg), c)
  {
    hide Run, After, Ready, Count, Src, Dst, Put, Get, Spares, Mapped, Writable, Cycle;
    if k == 0 {
      AfterNone(s, c);
      RunNone(s);
    } else {
      var m := Copied(s, c, k - 1);
      MovsIterations(s, c, k - 1);
      var t := After(s, c, k - 1, m, s.freg);
      AfterFields(s, c, k - 1, m, s.freg);
      CountAfter(s, c, k - 1, m, s.freg);
      NotCutShort(s, c, k - 1, m);
      ElementsAfter(s, c, k - 1, m, s.freg);
      MappedTransfers(s.memory, m, Src(s, c, k - 1), c.Size());
      MappedTransfers(s.memory, m, Dst(s, c, k - 1), c.Size());
      MovsCycle(t, c);
      AfterOneMore(s, c, k - 1, m, s.freg, Copied(s, c, k), s.freg);
      StillReady(s, c, k - 1, m, Dst(s, c, k - 1), Get(m, Src(s, c, k - 1), c.Size()), s.freg);
      RunSnoc(s, k - 1);
    }
  }

  lemma RunNone(s: Cpu)
    ensures Run(s, 0) == Ok(s)
  {
  }

  lemma AfterFields(s: Cpu, c: RepCode, k: nat, m: Memory, f: Flags)
    ensures After(s, c, k, m, f).memory == m && After(s, c, k, m, f).freg == f
  {
  }

  lemma {:induction false} StosIterations(s: Cpu, c: RepCode, k: nat)
    requires Ready(s, c) && c.op == 0xAB && k <= Count(s, c) && (k > 0 ==> !CutShort(s, c))
    requires DstWritable(s, c, k) && SparesCode(s, c, k)
    ensures Run(s, k) == Ok(After(s, c, k, Filled(s, c, k), s.freg))
    ensures Ready(After(s, c, k, Filled(s, c, k), s.freg), c)
  {
    hide Run, Ready, Count, Dst, Put, Spares, Writable, Cycle;
    if k == 0 {
      AfterNone(s, c);
      RunNone(s);
    } else {
      var m := Filled(s, c, k - 1);
      StosIterations(s, c, k - 1);
      var t := After(s, c, k - 1, m, s.freg);
      CountAfter(s, c, k - 1, m, s.freg);
      NotCutShort(s, c, k - 1, m);
      ElementsAfter(s, c, k - 1, m, s.freg);
      MappedTransfers(s.memory, m, Dst(s, c, k - 1), c.Size());
      StosCycle(t, c);
      AfterOneMore(s, c, k - 1, m, s.freg, Filled(s, c, k), s.freg);
      StillReady(s, c, k - 1, m, Dst(s, c, k - 1), Accumulator(s, c), s.freg);
      RunSnoc(s, k - 1);
    }
  }

  /** A run that does all its `n` elements: `n` cycles with `eip` on the instruction, and one more, which finds
      the counter at zero and leaves `eip` past it. */
  ghost predicate WholeRun(s: Cpu, c: RepCode, n: nat, m: Memory) {
    && Run(s, n + 1) == Ok(Finished(After(s, c, n, m, s.freg), c))
    && forall k :: 0 <= k <= n ==> Run(s, k).Ok? && Run(s, k).value.eip == s.eip
  }

  /** The end of an instruction that spares some byte is not its start: it is shorter than the address space. */
  lemma PastElsewhere(s: Cpu, c: RepCode, a: uint32)
    requires Ready(s, c) && Spares(s, c, a)
    ensures Past(s, c) != s.eip
  {
    var j: nat := if a >= s.eip then a - s.eip else a + 0x1_0000_0000 - s.eip;
    assert CodeAddress(s, j) == a;
    assert |c.Bytes()| == |c.ps| + 2 <= 0x1_0000_0000;
  }

  /** A first cycle that leaves the instruction with elements still due. */
  lemma LeftEarly(s: Cpu, c: RepCode, n: nat, m: Memory)
    requires n > 0 && Cycle(s).Ok? && Cycle(s).value.eip != s.eip
    ensures Run(s, 1) == Cycle(s) && !WholeRun(s, c, n, m)
  {
    hide Cycle, Finished, After;
    assert Run(s, 1) == Run(Cycle(s).value, 0);
  }

  lemma MovsAlone(s: Cpu, c: RepCode)
    requires SrcMapped(s, c, 1) && DstWritable(s, c, 1)
    ensures Mapped(s.memory, Src(s, c, 0), c.Size()) && Writable(s.memory, Dst(s, c, 0), c.Size())
    ensures Copied(s, c, 1) == Put(s.memory, Dst(s, c, 0), c.Size(), Get(s.memory, Src(s, c, 0), c.Size()))
  {
    hide Src, Dst, Put, Get;
    assert Copied(s, c, 0) == s.memory;
  }

  lemma StosAlone(s: Cpu, c: RepCode)
    requires DstWritable(s, c, 1)
    ensures Writable(s.memory, Dst(s, c, 0), c.Size())
    ensures Filled(s, c, 1) == Put(s.memory, Dst(s, c, 0), c.Size(), Accumulator(s, c))
  {
    hide Src, Dst, Put;
    assert Filled(s, c, 0) == s.memory;
  }

  /** REP MOVS does all its elements if and only if no earlier instruction left its mark for the exit test
      with the flags on the exit side; otherwise it copies one element and goes on behind the instruction
      with the others still counted. */
  lemma RepMovsRun(s: Cpu, c: RepCode, n: nat)
    requires Ready(s, c) && c.op == 0xA5 && n == Count(s, c)
    requires SrcMapped(s, c, n) && DstWritable(s, c, n) && SparesCode(s, c, n)
    ensures WholeRun(s, c, n, Copied(s, c, n)) <==> !CutShort(s, c)
    ensures CutShort(s, c) ==> Run(s, 1) == Ok(After(s, c, 1, Copied(s, c, 1), s.freg).(eip := Past(s, c)))
  {
    hide Ready, Count, Src, Dst, Spares, Cycle, Mapped, Writable, Run, WholeRun, After;
    if CutShort(s, c) {
      MovsCycle(s, c);
      MovsAlone(s, c);
      assert Spares(s, c, Dst(s, c, 0));
      PastElsewhere(s, c, Dst(s, c, 0));
      LeftEarly(s, c, n, Copied(s, c, n));
    } else {
      MovsWhole(s, c, n);
    }
  }

  lemma MovsWhole(s: Cpu, c: RepCode, n: nat)
    requires Ready(s, c) && c.op == 0xA5 && n == Count(s, c) && !CutShort(s, c)
    requires SrcMapped(s, c, n) && DstWritable(s, c, n) && SparesCode(s, c, n)
    ensures WholeRun(s, c, n, Copied(s, c, n))
  {
    hide Run, Ready, Count, Src, Dst, Spares, Finished, Cycle, Mapped, Writable;
    forall k | 0 <= k <= n
      ensures Run(s, k).Ok? && Run(s, k).value.eip == s.eip
    {
      MovsIterations(s, c, k);
    }
    MovsIterations(s, c, n);
    CountAfter(s, c, n, Copied(s, c, n), s.freg);
    RepCycle(After(s, c, n, Copied(s, c, n), s.freg), c);
    RunSnoc(s, n);
  }

  /** REP STOS, likewise. */
  lemma RepStosRun(s: Cpu, c: RepCode, n: nat)
    requires Ready(s, c) && c.op == 0xAB && n == Count(s, c)
    requires DstWritable(s, c, n) && SparesCode(s, c, n)
    ensures WholeRun(s, c, n, Filled(s, c, n)) <==> !CutShort(s, c)
    ensures CutShort(s, c) ==> Run(s, 1) == Ok(After(s, c, 1, Filled(s, c, 1), s.freg).(eip := Past(s, c)))
  {
    hide Ready, Count, Src, Dst, Spares, Cycle, Mapped, Writable, Run, WholeRun, After;
    if CutShort(s, c) {
      StosCycle(s, c);
      StosAlone(s, c);
      assert Spares(s, c, Dst(s, c, 0));
      PastElsewhere(s, c, Dst(s, c, 0));
      LeftEarly(s, c, n, Filled(s, c, n));
    } else {
      StosWhole(s, c, n);
    }
  }

  lemma StosWhole(s: Cpu, c: RepCode, n: nat)
    requires Ready(s, c) && c.op == 0xAB && n == Count(s, c) && !CutShort(s, c)
    requires DstWritable(s, c, n) && SparesCode(s, c, n)
    ensures WholeRun(s, c, n, Filled(s, c, n))
  {
    hide Run, Ready, Count, Src, Dst, Spares, Finished, Cycle, Mapped, Writable;
    forall k | 0 <= k <= n
      ensures Run(s, k).Ok? && Run(s, k).value.eip == s.eip
    {
      StosIterations(s, c, k);
    }
    StosIterations(s, c, n);
    CountAfter(s, c, n, Filled(s, c, n), s.freg);
    RepCycle(After(s, c, n, Filled(s, c, n), s.freg), c);
    RunSnoc(s, n);
  }

  // ----- Runs that fault -----

  /** How a run ends whose next element cannot be accessed: the elements before it are done and counted, and
      nothing of it is. */
  ghost predicate FaultsAfter(s: Cpu, c: RepCode, k: nat, m: Memory) {
    Run(s, k + 1) == Fault(AtString(After(s, c, k, m, s.freg), c), MemoryFault)
  }

  lemma MovsFaults(s: Cpu, c: RepCode, k: nat)
    requires Ready(s, c) && c.op == 0xA5 && k < Count(s, c) && (k > 0 ==> !CutShort(s, c))
    requires SrcMapped(s, c, k) && DstWritable(s, c, k) && SparesCode(s, c, k)
    requires !Mapped(s.memory, Src(s, c, k), c.Size()) || !Writable(s.memory, Dst(s, c, k), c.Size())
    ensures FaultsAfter(s, c, k, Copied(s, c, k))
  {
    hide Run, After, Ready, Count, Src, Dst, Put, Get, Spares, Mapped, Writable, Cycle, AtString;
    var m := Copied(s, c, k);
    var t := After(s, c, k, m, s.freg);
    MovsIterations(s, c, k);
    AfterFields(s, c, k, m, s.freg);
    CountAfter(s, c, k, m, s.freg);
    ElementsAfter(s, c, k, m, s.freg);
    MappedTransfers(s.memory, m, Src(s, c, k), c.Size());
    MappedTransfers(s.memory, m, Dst(s, c, k), c.Size());
    StringFaults(t, c);
    RepCycle(t, c);
    RunSnoc(s, k);
  }

  lemma StosFaults(s: Cpu, c: RepCode, k: nat)
    requires Ready(s, c) && c.op == 0xAB && k < Count(s, c) && (k > 0 ==> !CutShort(s, c))
    requires DstWritable(s, c, k) && SparesCode(s, c, k) && !Writable(s.memory, Dst(s, c, k), c.Size())
    ensures FaultsAfter(s, c, k, Filled(s, c, k))
  {
    hide Run, After, Ready, Count, Src, Dst, Put, Get, Spares, Mapped, Writable, Cycle, AtString;
    var m := Filled(s, c, k);
    var t := After(s, c, k, m, s.freg);
    StosIterations(s, c, k);
    AfterFields(s, c, k, m, s.freg);
    CountAfter(s, c, k, m, s.freg);
    ElementsAfter(s, c, k, m, s.freg);
    MappedTransfers(s.memory, m, Dst(s, c, k), c.Size());
    StringFaults(t, c);
    RepCycle(t, c);
    RunSnoc(s, k);
  }

  lemma StringFaults(t: Cpu, c: RepCode)
    requires c.op == 0xA5 || c.op == 0xAB
    requires !Writable(t.memory, Dst(t, c, 0), c.Size()) || (c.op == 0xA5 && !Mapped(t.memory, Src(t, c, 0), c.Size()))
    ensures StringOp(AtString(t, c), c.op) == Fault(AtString(t, c), MemoryFault)
  {
    hide Mapped, Writable, Get, Put;
    ElementZero(t, c);
  }

  /** What `k` iterations make of the registers: the counter is down by `k`, both pointers, used or
      not, are `k` elements further, and nothing else has changed. */
  lemma IterationRegisters(s: Cpu, c: RepCode, k: nat)
    requires k <= Count(s, c)
    ensures
      var regs := RegsAfter(s.regs, c, s.freg.df, k);
      && Pointer(regs[ECX], c.Addr16()) == Count(s, c) - k
      && Pointer(regs[ESI], c.Op16()) == Truncate(Pointer(s.regs[ESI], c.Op16()) as int + Offset(k, c, s.freg.df), c.Op16())
      && Pointer(regs[EDI], c.Op16()) == Truncate(Pointer(s.regs[EDI], c.Op16()) as int + Offset(k, c, s.freg.df), c.Op16())
      && regs[EAX] == s.regs[EAX] && regs[EDX] == s.regs[EDX] && regs[EBX] == s.regs[EBX]
      && regs[ESP] == s.regs[ESP] && regs[EBP] == s.regs[EBP]
  {
    hide Bump, Offset;
    PointerBump(s.regs[ECX], 0 - k, c.Addr16());
    PointerBump(s.regs[ESI], Offset(k, c, s.freg.df), c.Op16());
    PointerBump(s.regs[EDI], Offset(k, c, s.freg.df), c.Op16());
  }

  // ----- What the copy and fill loops leave in memory -----

  /** The address `x` is in none of the first `n` destination elements. */
  ghost predicate Untouched(s: Cpu, c: RepCode, n: nat, x: int) {
    forall k :: 0 <= k < n ==> Outside(x, Dst(s, c, k), c.Size())
  }

  /** The copy loop changes no byte outside its destination elements. */
  lemma {:induction false} CopyKeepsTheRest(s: Cpu, c: RepCode, n: nat, x: int)
    requires SrcMapped(s, c, n) && DstWritable(s, c, n) && Untouched(s, c, n, x) && x in s.memory.bytes
    ensures Copied(s, c, n).bytes[x] == s.memory.bytes[x]
  {
    hide Src, Dst, Get;
    if n > 0 {
      CopyKeepsTheRest(s, c, n - 1, x);
      assert Outside(x, Dst(s, c, n - 1), c.Size());
      assert x in Copied(s, c, n - 1).bytes.Keys;
    }
  }

  /** Nor does the fill loop, whatever is at the source pointer, which it never reads through. */
  lemma {:induction false} FillKeepsTheRest(s: Cpu, c: RepCode, n: nat, x: int)
    requires DstWritable(s, c, n) && Untouched(s, c, n, x) && x in s.memory.bytes
    ensures Filled(s, c, n).bytes[x] == s.memory.bytes[x]
  {
    hide Dst;
    if n > 0 {
      FillKeepsTheRest(s, c, n - 1, x);
      assert Outside(x, Dst(s, c, n - 1), c.Size());
      assert x in Filled(s, c, n - 1).bytes.Keys;
    }
  }

  /** Elements meet only after whole laps of the pointers' range, and then exactly, sources and destinations
      alike. */
  lemma ElementsMeet(s: Cpu, c: RepCode, i: nat, j: nat)
    ensures Apart(Dst(s, c, i), Dst(s, c, j), c.Size()) || (Dst(s, c, i) == Dst(s, c, j) && Src(s, c, i) == Src(s, c, j))
  {
    hide Bump, Pointer, Apart, Truncate;
    var low, df := c.Op16(), s.freg.df;
    var d, e := Offset(i, c, df), Offset(j, c, df);
    var q, r := ElementDistance(c, df, i, j);
    PointerBump(s.regs[EDI], d, low);
    PointerBump(s.regs[EDI], e, low);
    PointerBump(s.regs[ESI], d, low);
    PointerBump(s.regs[ESI], e, low);
    SameLap(Pointer(s.regs[EDI], low) as int + e, q, r, low);
    SameLap(Pointer(s.regs[ESI], low) as int + e, q, r, low);
    if r > 0 {
      TruncateApart(Pointer(s.regs[EDI], low), e + r, e, c.Size(), low);
    }
  }

  /** The distance of two elements is whole laps and, within one lap, a whole number of elements. */
  lemma ElementDistance(c: RepCode, df: bool, i: nat, j: nat) returns (q: int, r: nat)
    ensures r == 0 || c.Size() <= r <= Modulus(c.Op16()) - c.Size()
    ensures Offset(i, c, df) - Offset(j, c, df) == q * Modulus(c.Op16()) + r
  {
    var e := if df then j - i else i - j;
    assert Offset(i, c, df) - Offset(j, c, df) == c.Size() * e;
    if c.Op16() {
      q, r := HalfLaps(e);
    } else {
      q, r := FullLaps(e);
    }
  }

  lemma HalfLaps(e: int) returns (q: int, r: nat)
    ensures 2 * e == q * 0x1_0000 + r && (r == 0 || 2 <= r <= 0x1_0000 - 2)
  {
    q, r := e / 0x8000, 2 * (e % 0x8000);
  }

  lemma FullLaps(e: int) returns (q: int, r: nat)
    ensures 4 * e == q * 0x1_0000_0000 + r && (r == 0 || 4 <= r <= 0x1_0000_0000 - 4)
  {
    q, r := e / 0x4000_0000, 4 * (e % 0x4000_0000);
  }

  lemma SameLap(p: int, q: int, r: int, low: bool)
    ensures Truncate(p + (q * Modulus(low) + r), low) == Truncate(p + r, low)
  {
    var x := p + r;
    if low {
      LowPart(x / 0x1_0000 + q, x % 0x1_0000);
    } else {
      LowPart(x / 0x1_0000_0000 + q, x % 0x1_0000_0000);
    }
  }

  /** No source element is overwritten before its turn. */
  ghost predicate NoOverrun(s: Cpu, c: RepCode, n: nat) {
    forall i, j :: 0 <= j < i < n ==> Apart(Dst(s, c, j), Src(s, c, i), c.Size())
  }

  /** `n` elements copied one after the other are a block copy, over any number of laps. */
  lemma {:induction false} CopyIsBlockCopy(s: Cpu, c: RepCode, n: nat, i: nat)
    requires SrcMapped(s, c, n) && DstWritable(s, c, n) && NoOverrun(s, c, n) && i < n
    ensures Mapped(s.memory, Src(s, c, i), c.Size()) && Mapped(Copied(s, c, n), Dst(s, c, i), c.Size())
    ensures Get(Copied(s, c, n), Dst(s, c, i), c.Size()) == Get(s.memory, Src(s, c, i), c.Size())
  {
    hide Src, Dst, Get, Put, Mapped, Writable;
    var m, a := Copied(s, c, n - 1), Dst(s, c, n - 1);
    MappedTransfers(s.memory, m, a, c.Size());
    MappedTransfers(s.memory, m, Src(s, c, n - 1), c.Size());
    MappedTransfers(s.memory, m, Dst(s, c, i), c.Size());
    WritableIsMapped(s.memory, Dst(s, c, i), c.Size());
    MappedTransfers(s.memory, Copied(s, c, n), Dst(s, c, i), c.Size());
    var v := Get(m, Src(s, c, n - 1), c.Size());
    ElementsMeet(s, c, i, n - 1);
    if Dst(s, c, i) == a && Src(s, c, i) == Src(s, c, n - 1) {
      SourceIntact(s, c, n - 1);
      GetBound(m, Src(s, c, n - 1), c.Size());
      GetPut(m, a, c.Size(), v);
    } else {
      CopyIsBlockCopy(s, c, n - 1, i);
      GetPutOther(m, a, c.Size(), v, Dst(s, c, i), c.Size());
    }
  }

  lemma WritableIsMapped(m: Memory, a: int, n: nat)
    requires Writable(m, a, n)
    ensures Mapped(m, a, n)
  {
  }

  lemma SourceIntact(s: Cpu, c: RepCode, i: nat)
    requires SrcMapped(s, c, i + 1) && DstWritable(s, c, i + 1) && NoOverrun(s, c, i + 1)
    ensures Mapped(s.memory, Src(s, c, i), c.Size()) && Mapped(Copied(s, c, i), Src(s, c, i), c.Size())
    ensures Get(Copied(s, c, i), Src(s, c, i), c.Size()) == Get(s.memory, Src(s, c, i), c.Size())
  {
    hide Src, Dst, Get, Writable;
    var m, a := Copied(s, c, i), Src(s, c, i);
    MappedTransfers(s.memory, m, a, c.Size());
    assert Mapped(s.memory, a, c.Size());
    forall x | a <= x < a + c.Size()
      ensures x in s.memory.bytes && x in m.bytes && m.bytes[x] == s.memory.bytes[x]
    {
      assert forall k :: 0 <= k < i ==> Apart(Dst(s, c, k), Src(s, c, i), c.Size());
      assert Untouched(s, c, i, x);
      CopyKeepsTheRest(s, c, i, x);
    }
    SameGet(s.memory, m, a, c.Size());
  }

  /** Every destination element holds the accumulator, over any number of laps. */
  lemma {:induction false} FillFills(s: Cpu, c: RepCode, n: nat, i: nat)
    requires DstWritable(s, c, n) && i < n
    ensures Mapped(Filled(s, c, n), Dst(s, c, i), c.Size())
    ensures Get(Filled(s, c, n), Dst(s, c, i), c.Size()) == Accumulator(s, c)
  {
    hide Src, Dst, Get, Put, Mapped, Writable;
    var m, a := Filled(s, c, n - 1), Dst(s, c, n - 1);
    MappedTransfers(s.memory, m, a, c.Size());
    MappedTransfers(s.memory, m, Dst(s, c, i), c.Size());
    WritableIsMapped(s.memory, Dst(s, c, i), c.Size());
    MappedTransfers(s.memory, Filled(s, c, n), Dst(s, c, i), c.Size());
    ElementsMeet(s, c, i, n - 1);
    if Dst(s, c, i) == a {
      Pow256Values();
      GetPut(m, a, c.Size(), Accumulator(s, c));
    } else {
      FillFills(s, c, n - 1, i);
      GetPutOther(m, a, c.Size(), Accumulator(s, c), Dst(s, c, i), c.Size());
    }
  }
}
