/** The smallest balanced run: a CALL to a RET. */
module LeafCalls {
  import opened Words
  import opened FlatMemory
  import opened CpuState
  import opened Isa
  import opened PrefixChains
  import opened CallRuns
  import BranchRuns

  /** A near CALL is at `s`, and the byte at its target `a` is a RET that the pushed return address does
      not overwrite. */
  ghost predicate CallsRet(s: Cpu, j: BranchRuns.Jump, a: uint32) {
    && Flat(s) && BranchRuns.NearJump(s, [], BranchRuns.CALL, j)
    && a == BranchRuns.Target(BranchRuns.Following(s, [], j), j, false)
    && s.regs[ESP] >= 4 && Writable(s.memory, s.regs[ESP] as int - 4, 4)
    && ByteAt(s.memory, a, 0xC3) && !(s.regs[ESP] as int - 4 <= a < s.regs[ESP])
  }

  lemma CallAtStart(s: Cpu, j: BranchRuns.Jump, a: uint32)
    requires CallsRet(s, j, a)
    ensures CodeByte(s, 0) == Ok(0xE8) && EventOf(s) == Call && Cycle(s).Ok?
    ensures Cycle(s).value.regs == s.regs[ESP := Wrap32(s.regs[ESP] as int - 4)]
  {
    hide Cycle, Put, Writable, BranchRuns.Target, BranchRuns.Following;
    assert ([] + [BranchRuns.CALL])[0] == 0xE8;
    FetchByte(s, 0, 0xE8);
    var t := Started(s, [], 0xE8);
    PrefixedCycle(s, [], 0xE8);
    BranchRuns.NearHandlers(t);
    assert Push(Skip(t, 5), Skip(t, 5).eip).Ok?;
    assert CallRelW(t).Ok?;
  }

  lemma RetAtTarget(s: Cpu, j: BranchRuns.Jump, a: uint32)
    requires CallsRet(s, j, a)
    requires CodeByte(s, 0) == Ok(0xE8) && EventOf(s) == Call && Cycle(s).Ok?
    ensures
      var t := Cycle(s).value;
      EventOf(t) == Return(0) && Cycle(t).Ok? && Cycle(t).value.regs == t.regs[ESP := Wrap32(t.regs[ESP] as int + 4)]
  {
    hide Cycle, EventOf, CodeByte, Get;
    var t := Cycle(s).value;
    AfterCall(s, j, a);
    assert [0xC3 as uint8][0] == 0xC3;
    FetchByte(t, 0, 0xC3);
    CodeByteIs(t, 0xC3);
    RetCompletes(t);
  }

  lemma CodeByteIs(t: Cpu, b: uint8)
    requires ReadCode8(t, 0) == Ok(b)
    ensures CodeByte(t, 0) == Ok(b)
  {
  }

  lemma AfterCall(s: Cpu, j: BranchRuns.Jump, a: uint32)
    requires CallsRet(s, j, a)
    requires EventOf(s) == Call && Cycle(s).Ok?
    ensures
      var t := Cycle(s).value;
      Flat(t) && t.eip == a && ByteAt(t.memory, a, 0xC3) && Mapped(t.memory, t.regs[ESP], 4)
  {
    hide Cycle, EventOf, Put, BranchRuns.NearJump, BranchRuns.Target, BranchRuns.Following;
    CallCycle(s);
    StaysFlat(s);
    BranchRuns.NearJumpCycle(s, [], BranchRuns.CALL, j);
    assert a in s.memory.bytes;
  }

  lemma RetCompletes(t: Cpu)
    requires Flat(t) && CodeByte(t, 0) == Ok(0xC3) && Mapped(t.memory, t.regs[ESP], 4)
    ensures EventOf(t) == Return(0) && Cycle(t).Ok?
    ensures Cycle(t).value.regs == t.regs[ESP := Wrap32(t.regs[ESP] as int + 4)]
  {
    hide Get, Cycle;
    var b := Begun(t, 0xC3);
    assert Basic(b).Ok?;
    UnprefixedCycle(t, 0xC3);
  }

  /** The call balances, so two instructions later `eip` is after the CALL and every register is as it was. */
  lemma CallOfRet(s: Cpu, j: BranchRuns.Jump, a: uint32)
    requires CallsRet(s, j, a)
    ensures Cycle(s).Ok? && Balanced(Cycle(s).value, 1, 4, s.regs[ESP])
    ensures Run(s, 2).Ok? && Run(s, 2).value.eip == Wrap32(s.eip + 5) && Run(s, 2).value.regs == s.regs
  {
    hide Cycle, EventOf, CodeByte, CallsRet;
    CallAtStart(s, j, a);
    RetAtTarget(s, j, a);
    StartsFlat(s, j, a);
    CallComesBack(s, 1);
    BranchRuns.TwoSteps(s);
    assert Run(s, 2).value.regs == s.regs;
  }

  lemma StartsFlat(s: Cpu, j: BranchRuns.Jump, a: uint32)
    requires CallsRet(s, j, a)
    ensures Flat(s) && s.regs[ESP] >= 4
  {
  }
}
