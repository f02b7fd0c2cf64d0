/**
  Calls and returns over whole runs of instructions, in 32-bit mode.  A ledger follows how deep the
  run is below the stack pointer of the opening call; as long as the run balances, the RET that
  closes the ledger goes back to the instruction after that call.
*/
module CallRuns {
  import opened Words
  import opened FlatMemory
  import opened CpuState
  import opened ModRm
  import opened Isa
  import opened PrefixChains
  import opened ExecLaws

  /** What an instruction does to the ledger. */
  datatype Event = Call | Return(imm: uint16) | PushWord | PopWord | Plain

  ghost function Extra(s: Cpu): RegisterIndex {
    match CodeByte(s, 1)
    case Ok(b) => b / 8 % 8
    case Fault(_, _) => 0
  }

  /** The immediate of a RET imm16. */
  ghost function Immediate(s: Cpu): uint16 {
    match ReadCode(s, 1, 2)
    case Ok(v) => v % 0x1_0000
    case Fault(_, _) => 0
  }

  /** Read off the code at `eip`; POP ESP, prefixed instructions and whatever else moves the stack
      pointer in its own way count as plain. */
  ghost function EventOf(s: Cpu): Event {
    match CodeByte(s, 0)
    case Fault(_, _) => Plain
    case Ok(op) =>
      if op == 0xE8 || (op == 0xFF && Extra(s) == 2) then Call
      else if op == 0xC3 then Return(0)
      else if op == 0xC2 then Return(Immediate(s))
      else if 0x50 <= op < 0x58 || (op == 0xFF && Extra(s) == 6) then PushWord
      else if 0x58 <= op < 0x60 && op != 0x58 + ESP then PopWord
      else Plain
  }

  // ----- What each event does -----

  /** A word went onto the stack: `v` is in the slot that ESP now points at. */
  ghost predicate Pushed(s: Cpu, u: Cpu, v: uint32) {
    var a := Wrap32(s.regs[ESP] as int - 4);
    && u.regs[ESP] == a
    && Writable(s.memory, a, 4) && u.memory == Put(s.memory, a, 4, v)
  }

  ghost predicate Popped4(s: Cpu, u: Cpu) {
    u.regs[ESP] == Wrap32(s.regs[ESP] as int + 4) && u.memory == s.memory
  }

  lemma PushHandler(t: Cpu, v: uint32)
    requires Flat(t) && Push(t, v).Ok?
    ensures Pushed(t, Push(t, v).value, v) && Push(t, v).value.eip == t.eip
  {
    hide Put, Writable;
  }

  /** The return address of a CALL at `eip`. */
  ghost function ReturnAddress(s: Cpu): uint32 {
    if CodeByte(s, 0) == Ok(0xE8) then Wrap32(s.eip + 5)
    else
      match (CodeByte(s, 1), CodeByte(s, 2))
      case (Ok(modrm), Ok(sib)) => Wrap32(s.eip + 1 + Length(s, FromBytes(modrm, sib)))
      case _ => 0
  }

  lemma CallRelCycle(s: Cpu)
    requires Flat(s) && CodeByte(s, 0) == Ok(0xE8) && Cycle(s).Ok?
    ensures Pushed(s, Cycle(s).value, Wrap32(s.eip + 5))
  {
    hide Cycle, Push, Put, Writable;
    UnprefixedCycle(s, 0xE8);
    var t := Skip(Begun(s, 0xE8), 5);
    assert CallRelW(Begun(s, 0xE8)).Ok?;
    PushHandler(t, t.eip);
  }

  lemma DecodeGroup(s: Cpu, t: Cpu)
    requires t.eip == s.eip && t.memory == s.memory && Decode(t).Ok?
    ensures CodeByte(s, 1).Ok? && CodeByte(s, 2).Ok?
    ensures Decode(t).value.cpu == Skip(t, 1)
    ensures Decode(t).value.rm == FromBytes(CodeByte(s, 1).value, CodeByte(s, 2).value)
    ensures Decode(t).value.rm.extra == Extra(s)
  {
    var u := Skip(t, 1);
    assert Wrap32(u.eip + 0) == Wrap32(s.eip + 1) && Wrap32(u.eip + 1) == Wrap32(s.eip + 2);
  }

  lemma CallRmCycle(s: Cpu)
    requires Flat(s) && CodeByte(s, 0) == Ok(0xFF) && Extra(s) == 2 && Cycle(s).Ok?
    ensures Pushed(s, Cycle(s).value, ReturnAddress(s))
  {
    hide Cycle, Push, Put, Writable, RmRead, Decode, Length, CodeByte, Basic;
    UnprefixedCycle(s, 0xFF);
    var b := Begun(s, 0xFF);
    GroupHandler(b);
    assert GroupFF(b).Ok?;
    DecodeGroup(s, b);
    var t, m := Decode(b).value.cpu, Decode(b).value.rm;
    var r := Wrap32(t.eip + Length(t, m));
    PushHandler(t, r);
    LengthKept(s, t, m);
    assert r == ReturnAddress(s);
  }

  lemma LengthKept(s: Cpu, t: Cpu, m: Operand)
    requires s.addressSize16 == t.addressSize16
    ensures Length(t, m) == Length(s, m)
  {
  }

  lemma CallCycle(s: Cpu)
    requires Flat(s) && EventOf(s) == Call && Cycle(s).Ok?
    ensures Pushed(s, Cycle(s).value, ReturnAddress(s))
  {
    hide Cycle, Pushed, CodeByte, Extra;
    if CodeByte(s, 0) == Ok(0xE8) {
      CallRelCycle(s);
    } else {
      CallRmCycle(s);
    }
  }

  lemma PushCycle(s: Cpu) returns (v: uint32)
    requires Flat(s) && EventOf(s) == PushWord && Cycle(s).Ok?
    ensures Pushed(s, Cycle(s).value, v)
  {
    hide Cycle, Push, Put, Writable, RmRead, Decode, Length, CodeByte;
    var op := CodeByte(s, 0).value;
    var b := Begun(s, op);
    UnprefixedCycle(s, op);
    if op == 0xFF {
      assert GroupFF(b).Ok?;
      DecodeGroup(s, b);
      var t, m := Decode(b).value.cpu, Decode(b).value.rm;
      v := RmRead(t, m).value;
      PushHandler(t, v);
    } else {
      v := Reg(b, op - 0x50);
      assert PushR(b, op - 0x50).Ok?;
      PushHandler(b, v);
    }
  }

  lemma PopCycle(s: Cpu)
    requires Flat(s) && EventOf(s) == PopWord && Cycle(s).Ok?
    ensures Popped4(s, Cycle(s).value)
  {
    hide Cycle, CodeByte, Get, Mapped;
    var op := CodeByte(s, 0).value;
    UnprefixedCycle(s, op);
    assert PopR(Begun(s, op), op - 0x58).Ok?;
  }

  lemma ReturnCycle(s: Cpu)
    requires Flat(s) && EventOf(s).Return? && Cycle(s).Ok?
    ensures Mapped(s.memory, s.regs[ESP], 4)
    ensures
      var u := Cycle(s).value;
      && u.eip == Get(s.memory, s.regs[ESP], 4)
      && u.regs[ESP] == Wrap32(s.regs[ESP] as int + 4 + EventOf(s).imm)
      && u.memory == s.memory
  {
    hide Cycle, CodeByte, Get, Mapped, Retn, Immediate;
    var op := CodeByte(s, 0).value;
    var b := Begun(s, op);
    UnprefixedCycle(s, op);
    if op == 0xC3 {
      assert Retn(b).Ok?;
      RetnEffect(b);
    } else {
      assert RetnImm16(b).Ok?;
      RetnEffect(b);
      ImmediateFits(s, b);
      WrapAdd(s.regs[ESP] as int + 4, Immediate(s));
    }
  }

  lemma RetnEffect(b: Cpu)
    requires Flat(b) && Retn(b).Ok?
    ensures Mapped(b.memory, b.regs[ESP], 4)
    ensures
      var t := Retn(b).value;
      && Skip(t, 1).eip == Get(b.memory, b.regs[ESP], 4)
      && t.regs[ESP] == Wrap32(b.regs[ESP] as int + 4) && t.memory == b.memory
  {
    hide Get, Mapped;
  }

  lemma ImmediateFits(s: Cpu, b: Cpu)
    requires b.eip == s.eip && b.memory == s.memory && ReadCode(b, 1, 2).Ok?
    ensures ReadCode(b, 1, 2) == Ok(Immediate(s) as uint32)
  {
    var a := Wrap32(s.eip + 1);
    GetBound(s.memory, a, 2);
    Pow256Values();
  }

  // ----- The ledger -----

  /** How deep the next state is when `s` is `d` bytes deep. */
  ghost function Ledger(s: Cpu, d: int): int
    requires Cycle(s).Ok?
  {
    hide Cycle, EventOf;
    match EventOf(s)
    case Return(imm) => d - 4 - imm
    case PopWord => d - 4
    case Plain => d + s.regs[ESP] - Cycle(s).value.regs[ESP]
    case _ => d + 4
  }

  /** The instruction stays below the lowest word: calls and pushes have room, pops and returns do not reach
      it, and a plain instruction may move the stack pointer but leaves that word as it is. */
  ghost predicate StaysBelow(s: Cpu, d: int, top: uint32)
    requires Cycle(s).Ok?
  {
    hide Cycle, EventOf;
    && 4 <= Ledger(s, d) <= top
    && (EventOf(s).Plain? ==> Same(s.memory, Cycle(s).value.memory, top as int - 4, 4))
  }

  /** A run of `n` instructions from `s`, which is `d` bytes below `top`: every one but the last stays below
      the lowest word, and the last is a RET that takes it. */
  ghost predicate Balanced(s: Cpu, n: nat, d: int, top: uint32)
    decreases n
  {
    hide Cycle, EventOf;
    n > 0 && Cycle(s).Ok? &&
    if n == 1 then EventOf(s).Return? && d == 4
    else StaysBelow(s, d, top) && Balanced(Cycle(s).value, n - 1, Ledger(s, d), top)
  }

  /** `ret` waits in the word below `top`, and the stack pointer is where the ledger says. */
  ghost predicate Waiting(s: Cpu, d: int, top: uint32, ret: uint32) {
    && Flat(s) && 4 <= d <= top && s.regs[ESP] == top - d
    && Mapped(s.memory, top as int - 4, 4) && Get(s.memory, top as int - 4, 4) == ret
  }

  lemma PushWaits(s: Cpu, u: Cpu, v: uint32, d: int, top: uint32, ret: uint32)
    requires Waiting(s, d, top, ret) && d + 4 <= top && Pushed(s, u, v) && Flat(u)
    ensures Waiting(u, d + 4, top, ret)
  {
    hide Get, Put;
    GetPutOther(s.memory, Wrap32(s.regs[ESP] as int - 4), 4, v, top as int - 4, 4);
    assert forall x :: x in s.memory.bytes.Keys <==> x in u.memory.bytes.Keys;
  }

  lemma StaysFlat(s: Cpu)
    requires Flat(s) && Cycle(s).Ok?
    ensures Flat(Cycle(s).value)
  {
    hide Cycle;
    CycleKeeps(s);
  }

  /** Any instruction that stays below keeps the return address waiting. */
  lemma StillWaiting(s: Cpu, d: int, top: uint32, ret: uint32)
    requires Waiting(s, d, top, ret) && Cycle(s).Ok? && StaysBelow(s, d, top)
    ensures Waiting(Cycle(s).value, Ledger(s, d), top, ret)
  {
    hide Cycle, EventOf, Get, Pushed;
    var u := Cycle(s).value;
    StaysFlat(s);
    match EventOf(s) {
      case Return(imm) =>
        ReturnCycle(s);
      case PopWord =>
        PopCycle(s);
      case Plain =>
        SameGet(s.memory, u.memory, top as int - 4, 4);
      case Call =>
        CallCycle(s);
        PushWaits(s, u, ReturnAddress(s), d, top, ret);
      case PushWord =>
        var v := PushCycle(s);
        PushWaits(s, u, v, d, top, ret);
    }
  }

  /** The run ends with the RET that closes the ledger. */
  lemma {:induction false} WaitingReturns(s: Cpu, n: nat, d: int, top: uint32, ret: uint32)
    requires Waiting(s, d, top, ret) && Balanced(s, n, d, top)
    ensures n > 0 && Run(s, n).Ok? && Run(s, n - 1).Ok? && EventOf(Run(s, n - 1).value).Return?
    ensures Run(s, n).value.eip == ret
    ensures Run(s, n).value.regs[ESP] == Wrap32(top + EventOf(Run(s, n - 1).value).imm)
    decreases n
  {
    hide Cycle, EventOf, Get, Waiting, StaysBelow, Ledger;
    if n == 1 {
      ReturnNow(s, d, top, ret);
    } else {
      StillWaiting(s, d, top, ret);
      WaitingReturns(Cycle(s).value, n - 1, Ledger(s, d), top, ret);
    }
  }

  lemma ReturnNow(s: Cpu, d: int, top: uint32, ret: uint32)
    requires Waiting(s, d, top, ret) && Balanced(s, 1, d, top) && EventOf(s).Return?
    ensures Run(s, 0) == Ok(s) && Run(s, 1) == Cycle(s) && Cycle(s).Ok?
    ensures Cycle(s).value.eip == ret && Cycle(s).value.regs[ESP] == Wrap32(top + EventOf(s).imm)
  {
    hide Cycle, EventOf, Get;
    ReturnCycle(s);
  }

  /** A CALL whose callee balances comes back: `n` instructions later `eip` is on the instruction after
      the CALL and ESP is what it was before it, plus the immediate of the RET that came back.  The
      instructions in between may call, return, push and pop to any depth, and write anywhere but in the
      word that holds the return address. */
  lemma CallComesBack(s: Cpu, n: nat)
    requires Flat(s) && EventOf(s) == Call && Cycle(s).Ok? && s.regs[ESP] >= 4
    requires Balanced(Cycle(s).value, n, 4, s.regs[ESP])
    ensures n > 0 && Run(s, n + 1).Ok? && Run(s, n).Ok? && EventOf(Run(s, n).value).Return?
    ensures Run(s, n + 1).value.eip == ReturnAddress(s)
    ensures Run(s, n + 1).value.regs[ESP] == Wrap32(s.regs[ESP] + EventOf(Run(s, n).value).imm)
  {
    hide Cycle, EventOf, Get, ReturnAddress;
    var t, top := Cycle(s).value, s.regs[ESP];
    CallCycle(s);
    StaysFlat(s);
    Pow256Values();
    GetPut(s.memory, top as int - 4, 4, ReturnAddress(s));
    WaitingReturns(t, n, 4, top, ReturnAddress(s));
    RunFirst(s, n);
    RunFirst(s, n - 1);
  }

  lemma RunFirst(s: Cpu, n: nat)
    requires Cycle(s).Ok?
    ensures Run(s, n + 1) == Run(Cycle(s).value, n)
  {
    hide Cycle;
  }

  // ----- Nesting -----

  /** The plain instructions of the run leave the word at `a` as it is. */
  ghost predicate SparesWord(s: Cpu, n: nat, a: int)
    decreases n
  {
    hide Cycle, EventOf;
    n > 0 && Cycle(s).Ok? ==>
      && (EventOf(s).Plain? ==> Same(s.memory, Cycle(s).value.memory, a, 4))
      && SparesWord(Cycle(s).value, n - 1, a)
  }

  /** The immediate of the RET that ends a balanced run. */
  ghost function LastImmediate(s: Cpu, n: nat): nat {
    hide Run, EventOf;
    if n > 0 && Run(s, n - 1).Ok? && EventOf(Run(s, n - 1).value).Return? then EventOf(Run(s, n - 1).value).imm else 0
  }

  lemma LastOfRest(s: Cpu, n: nat)
    requires n > 1 && Cycle(s).Ok?
    ensures LastImmediate(s, n) == LastImmediate(Cycle(s).value, n - 1)
  {
    hide Cycle, EventOf;
    RunFirst(s, n - 2);
  }

  lemma LastIsFirst(s: Cpu)
    requires EventOf(s).Return?
    ensures LastImmediate(s, 1) == EventOf(s).imm
  {
    hide Cycle, EventOf;
  }

  /** A balanced run of a callee, followed by the rest of its caller, is a run of the caller: `e` bytes deep
      in the callee is `d + e` deep in the caller. */
  lemma {:induction false} CalleeThenCaller(s: Cpu, n: nat, e: int, d: int, top: uint32, k: nat)
    requires 4 <= d <= top && Balanced(s, n, e, top - d) && SparesWord(s, n, top as int - 4)
    requires Run(s, n).Ok? && LastImmediate(s, n) <= d - 4
    requires Balanced(Run(s, n).value, k, d - LastImmediate(s, n), top)
    ensures Balanced(s, n + k, d + e, top)
    decreases n
  {
    hide Cycle, EventOf, LastImmediate, Run, StaysBelow, Ledger;
    RunFirst(s, n - 1);
    var u := Cycle(s).value;
    if n == 1 {
      LastIsFirst(s);
      RunNothing(u);
      ReturnDeeper(s, d, top);
    } else {
      LastOfRest(s, n);
      DeeperStays(s, e, d, top);
      CalleeThenCaller(u, n - 1, Ledger(s, e), d, top, k);
    }
  }

  /** What stays below in the callee stays below in the caller. */
  lemma DeeperStays(s: Cpu, e: int, d: int, top: uint32)
    requires 4 <= d <= top && Cycle(s).Ok? && StaysBelow(s, e, top - d)
    requires EventOf(s).Plain? ==> Same(s.memory, Cycle(s).value.memory, top as int - 4, 4)
    ensures StaysBelow(s, d + e, top) && Ledger(s, d + e) == d + Ledger(s, e)
  {
    hide Cycle, EventOf;
  }

  /** The callee's RET is one instruction of the caller. */
  lemma ReturnDeeper(s: Cpu, d: int, top: uint32)
    requires Cycle(s).Ok? && EventOf(s).Return? && d <= top && EventOf(s).imm <= d - 4
    ensures StaysBelow(s, d + 4, top) && Ledger(s, d + 4) == d - EventOf(s).imm
  {
    hide Cycle, EventOf;
  }

  lemma RunNothing(s: Cpu)
    ensures Run(s, 0) == Ok(s)
  {
  }

  /** Balanced runs nest: a call `d` bytes deep whose callee balances, and spares the word that its caller's
      return address waits in, makes one balanced run with whatever balances after it. */
  lemma CallsNest(s: Cpu, n: nat, k: nat, d: int, top: uint32)
    requires Flat(s) && EventOf(s) == Call && Cycle(s).Ok?
    requires 4 <= d && d + 4 <= top && s.regs[ESP] == top - d
    requires Balanced(Cycle(s).value, n, 4, s.regs[ESP]) && SparesWord(Cycle(s).value, n, top as int - 4)
    requires Run(s, n + 1).Ok? && LastImmediate(Cycle(s).value, n) <= d - 4
    requires Balanced(Run(s, n + 1).value, k, d - LastImmediate(Cycle(s).value, n), top)
    ensures Balanced(s, n + k + 1, d, top)
  {
    hide Cycle, EventOf, LastImmediate;
    RunFirst(s, n);
    CalleeThenCaller(Cycle(s).value, n, 4, d, top, k);
  }
}
