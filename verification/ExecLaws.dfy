/** Bounded execution: what every instruction does to the accounts, and how many of them `Exec` runs. */
module ExecLaws {
  import opened CpuState
  import opened Isa
  import opened StepLaws
  import opened PrefixChains

  /** A size flag that is set at the end was set at the start. */
  ghost predicate NoNewSize(s: Cpu, t: Cpu) {
    (t.operandSize16 ==> s.operandSize16) && (t.addressSize16 ==> s.addressSize16)
  }

  ghost predicate Dispatched(s: Cpu, r: Step) {
    match r
    case Ok(t) => Keeps(s, t) && NoNewSize(s, t)
    case Fault(t, _) => Keeps(s, t)
  }

  lemma {:induction false} DispatchKeeps(s: Cpu, fuel: nat)
    ensures Dispatched(s, Dispatch(s, fuel))
    decreases fuel
  {
    hide Basic, TwoByte;
    BasicHandled(s);
    TwoByteHandled(s);
    if IsPrefix(s.opbyte) {
      var t := Skip(s, 1).(operandSize16 := s.operandSize16 || s.opbyte == OPERAND_SIZE,
                           addressSize16 := s.addressSize16 || s.opbyte == ADDRESS_SIZE);
      var op := ReadCode8(t, 0);
      if op.Ok? && fuel > 0 {
        DispatchKeeps(t.(opbyte := op.value), fuel - 1);
      }
    }
  }

  /** Every completed instruction costs one unit of gas, and none touches the limit or the stop request,
      maps or unmaps memory, changes what is read-only, or leaves a size flag set.  A faulting one is
      not charged. */
  lemma CycleKeeps(s: Cpu)
    ensures
      match Cycle(s)
      case Ok(t) => Keeps(s, t.(gasUsed := s.gasUsed, beginEip := s.beginEip)) && t.gasUsed == s.gasUsed + 1 && NoNewSize(s, t)
      case Fault(t, _) => Keeps(s, t.(beginEip := s.beginEip))
  {
    hide Dispatch;
    var op := ReadCode8(s.(beginEip := s.eip), 0);
    if op.Ok? {
      DispatchKeeps(s.(beginEip := s.eip, opbyte := op.value), ADDRESSES);
    }
  }

  /** The steps that `Exec` takes of the `n` asked for. */
  function Steps(s: Cpu, n: int): nat {
    var asked := if n < 0 then 0 else n;
    if s.gasLimit == 0 then asked
    else if s.gasUsed > s.gasLimit then 0
    else if asked <= s.gasLimit - s.gasUsed + 1 then asked
    else s.gasLimit - s.gasUsed + 1
  }

  /** Absent stops, `Exec(n)` is exactly that many cycles, or faults when and as they do. */
  lemma {:induction false} ExecRuns(s: Cpu, n: int)
    requires !s.doStop
    ensures Exec(s, n) == Run(s, Steps(s, n))
    decreases n
  {
    hide Cycle;
    CycleKeeps(s);
    if Steps(s, n) > 0 && Cycle(s).Ok? {
      ExecRuns(Cycle(s).value, n - 1);
    }
  }

  /** In particular the gas used never passes the limit by more than one unit. */
  lemma {:induction false} RunCharges(s: Cpu, k: nat)
    requires Run(s, k).Ok?
    ensures Run(s, k).value.gasUsed == s.gasUsed + k && Run(s, k).value.gasLimit == s.gasLimit
    ensures Run(s, k).value.doStop == s.doStop
    decreases k
  {
    hide Cycle;
    if k > 0 {
      CycleKeeps(s);
      RunCharges(Cycle(s).value, k - 1);
    }
  }

  lemma {:induction false} RunAdds(s: Cpu, a: nat, b: nat)
    requires Run(s, a).Ok?
    ensures Run(s, a + b) == Run(Run(s, a).value, b)
    decreases a
  {
    hide Cycle;
    if a > 0 {
      RunAdds(Cycle(s).value, a - 1, b);
    }
  }

  /** `Exec(a); Exec(b)` is `Exec(a + b)`; when the first faults, so does the whole, in the same state. */
  lemma ExecSplits(s: Cpu, a: nat, b: nat)
    requires !s.doStop
    ensures
      match Exec(s, a)
      case Ok(t) => Exec(s, a + b) == Exec(t, b)
      case Fault(t, cause) => Exec(s, a + b) == Fault(t, cause)
  {
    hide Exec, Run, Cycle;
    ExecRuns(s, a);
    ExecRuns(s, a + b);
    var k := Steps(s, a);
    if Exec(s, a).Ok? {
      var t := Exec(s, a).value;
      RunCharges(s, k);
      ExecRuns(t, b);
      assert Steps(s, a + b) == k + Steps(t, b);
      RunAdds(s, k, Steps(t, b));
    } else {
      FaultStays(s, k, Steps(s, a + b));
    }
  }

  lemma {:induction false} FaultStays(s: Cpu, k: nat, l: nat)
    requires Run(s, k).Fault? && k <= l
    ensures Run(s, l) == Run(s, k)
    decreases k
  {
    hide Cycle;
    if Cycle(s).Ok? {
      FaultStays(Cycle(s).value, k - 1, l - 1);
    }
  }

  /** A pending stop ends the slice after one instruction and is forgotten. */
  lemma ExecStops(s: Cpu, n: nat)
    requires s.doStop && Steps(s, n) > 0 && Cycle(s).Ok?
    ensures Exec(s, n) == Ok(Cycle(s).value.(doStop := false))
  {
    hide Cycle;
    CycleKeeps(s);
  }
}
