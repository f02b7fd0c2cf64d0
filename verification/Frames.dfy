/**
  Instructions that save and restore through the stack: PUSHA with POPA, ENTER with LEAVE.
*/
module Frames {
  import opened Words
  import opened FlatMemory
  import opened Arithmetic
  import opened CpuState
  import opened Isa
  import opened Pointers
  import opened StackRuns

  /** A push on top of what the stack holds, in a region of `depth` slots. */
  lemma PushKeeps(s0: Cpu, s: Cpu, top: uint32, stk: seq<uint32>, v: uint32, depth: nat)
    requires Holds(s, top, stk) && OnlyStack(s0, s, top, depth)
    requires |stk| < depth && NoLap(depth, s.operandSize16) && Push(s, v).Ok?
    ensures Holds(Push(s, v).value, top, stk + [Truncate(v, s.operandSize16)])
    ensures OnlyStack(s0, Push(s, v).value, top, depth)
  {
    hide Push, Put, Slot, Bump, Stored, Writable, OutsideSlots;
    var low := s.operandSize16;
    LessLap(|stk| + 1, depth, low);
    PushRefines(s, top, stk, v);
    PushOnlyStack(s, top, |stk| + 1, depth, v);
    OnlyStackTrans(s0, s, Push(s, v).value, top, depth);
  }

  /** A register pushed at the operand size. */
  lemma PushRKeeps(s0: Cpu, s: Cpu, top: uint32, stk: seq<uint32>, i: RegisterIndex, depth: nat)
    requires Holds(s, top, stk) && OnlyStack(s0, s, top, depth) && i != ESP
    requires |stk| < depth && NoLap(depth, s.operandSize16) && PushR(s, i).Ok?
    ensures Holds(PushR(s, i).value, top, stk + [Reg(s0, i)])
    ensures OnlyStack(s0, PushR(s, i).value, top, depth)
  {
    hide Push, Holds, OutsideSlots;
    PushKeeps(s0, s, top, stk, Reg(s, i), depth);
  }

  // ----- PUSHA and POPA -----

  /** What PUSHA saves, in push order. */
  function General(s: Cpu): (r: seq<uint32>)
    ensures |r| == 8
  {
    [Reg(s, EAX), Reg(s, ECX), Reg(s, EDX), Reg(s, EBX), Reg(s, ESP), Reg(s, EBP), Reg(s, ESI), Reg(s, EDI)]
  }

  lemma PushaSaves(s: Cpu)
    requires Pusha(s).Ok?
    ensures Holds(Pusha(s).value, s.regs[ESP], General(s)) && OnlyStack(s, Pusha(s).value, s.regs[ESP], 8)
  {
    hide PushR, Push, Reg, Holds, OnlyStack, General;
    var top := s.regs[ESP];
    HoldsNothing(s);
    SameOnlyStack(s, s, top, 8);
    PushRKeeps(s, s, top, [], EAX, 8);
    var s1 := PushR(s, EAX).value;
    SameOnlyStack(s, s1, top, 8);
    PushRKeeps(s, s1, top, [] + [Reg(s, EAX)], ECX, 8);
    var s2 := PushR(s1, ECX).value;
    SameOnlyStack(s, s2, top, 8);
    PushRKeeps(s, s2, top, [] + [Reg(s, EAX)] + [Reg(s, ECX)], EDX, 8);
    var s3 := PushR(s2, EDX).value;
    SameOnlyStack(s, s3, top, 8);
    PushRKeeps(s, s3, top, [] + [Reg(s, EAX)] + [Reg(s, ECX)] + [Reg(s, EDX)], EBX, 8);
    var s4 := PushR(s3, EBX).value;
    SameOnlyStack(s, s4, top, 8);
    var four := [] + [Reg(s, EAX)] + [Reg(s, ECX)] + [Reg(s, EDX)] + [Reg(s, EBX)];
    assert Push(s4, Reg(s, ESP)).Ok?;
    PushKeeps(s, s4, top, four, Reg(s, ESP), 8);
    RegFits(s, ESP);
    PushaRest(s, Push(s4, Reg(s, ESP)).value, top, four + [Reg(s, ESP)]);
    GeneralParts(s, four);
  }

  lemma RegFits(s: Cpu, i: RegisterIndex)
    ensures Truncate(Reg(s, i), s.operandSize16) == Reg(s, i)
  {
  }

  lemma GeneralParts(s: Cpu, four: seq<uint32>)
    requires four == [] + [Reg(s, EAX)] + [Reg(s, ECX)] + [Reg(s, EDX)] + [Reg(s, EBX)]
    ensures four + [Reg(s, ESP)] + [Reg(s, EBP)] + [Reg(s, ESI)] + [Reg(s, EDI)] == General(s)
  {
    hide Reg;
  }

  /** Pushes change no size. */
  lemma SameOnlyStack(s0: Cpu, s: Cpu, top: uint32, depth: nat)
    ensures s == s0 ==> OnlyStack(s0, s, top, depth)
    ensures OnlyStack(s0, s, top, depth) ==> s.operandSize16 == s0.operandSize16
    ensures NoLap(8, s.operandSize16)
  {
  }

  /** The three registers pushed after the stack pointer. */
  lemma PushaRest(s0: Cpu, s: Cpu, top: uint32, stk: seq<uint32>)
    requires Holds(s, top, stk) && OnlyStack(s0, s, top, 8) && |stk| == 5
    requires PushR(s, EBP).Ok? && PushR(PushR(s, EBP).value, ESI).Ok?
    requires PushR(PushR(PushR(s, EBP).value, ESI).value, EDI).Ok?
    ensures
      var t := PushR(PushR(PushR(s, EBP).value, ESI).value, EDI).value;
      Holds(t, top, stk + [Reg(s0, EBP)] + [Reg(s0, ESI)] + [Reg(s0, EDI)]) && OnlyStack(s0, t, top, 8)
  {
    hide PushR, Reg, Holds, OnlyStack;
    SameOnlyStack(s0, s, top, 8);
    PushRKeeps(s0, s, top, stk, EBP, 8);
    var s6 := PushR(s, EBP).value;
    SameOnlyStack(s0, s6, top, 8);
    PushRKeeps(s0, s6, top, stk + [Reg(s0, EBP)], ESI, 8);
    var s7 := PushR(s6, ESI).value;
    SameOnlyStack(s0, s7, top, 8);
    PushRKeeps(s0, s7, top, stk + [Reg(s0, EBP)] + [Reg(s0, ESI)], EDI, 8);
  }

  ghost function WithDepth(top: uint32, d: nat, low: bool): uint32 { Bump(top, 0 - d * SlotSize(low), low) }

  lemma PopRTakes(s: Cpu, top: uint32, stk: seq<uint32>, i: RegisterIndex)
    requires Holds(s, top, stk) && stk != [] && i != ESP
    ensures
      var low, d := s.operandSize16, |stk| - 1;
      var t := s.(regs := s.regs[ESP := WithDepth(top, d, low)][i := Assigned(s.regs[i], stk[d], low)]);
      PopR(s, i) == Ok(t) && Holds(t, top, stk[..d])
  {
    hide Pop, Stored, Bump, Assigned;
    PopRefines(s, top, stk);
    var p := Pop(s).value;
    SetRegAssigns(p.cpu, i, p.value);
  }

  lemma PopaRestores(u: Cpu, top: uint32, stk: seq<uint32>)
    requires Holds(u, top, stk) && |stk| == 8
    ensures
      var low := u.operandSize16;
      Popa(u) == Ok(u.(regs := u.regs
        [EDI := Assigned(u.regs[EDI], stk[7], low)][ESI := Assigned(u.regs[ESI], stk[6], low)]
        [EBP := Assigned(u.regs[EBP], stk[5], low)][EBX := Assigned(u.regs[EBX], stk[3], low)]
        [EDX := Assigned(u.regs[EDX], stk[2], low)][ECX := Assigned(u.regs[ECX], stk[1], low)]
        [EAX := Assigned(u.regs[EAX], stk[0], low)][ESP := top]))
  {
    hide Pop, PopR, Holds, Assigned, Bump;
    var low := u.operandSize16;
    PopPointersTakes(u, top, stk);
    var t := PopPointers(u).value;
    SkipPopped(t, top, stk[..5]);
    var v := SetReg(t, ESP, Wrap32(Reg(t, ESP) as int + OperandSize(u)));
    assert stk[..5][..4] == stk[..4];
    PopOthersTakes(v, top, stk[..4]);
    BumpZero(top, low);
    assert PopOthers(v).value.regs == u.regs
        [EDI := Assigned(u.regs[EDI], stk[7], low)][ESI := Assigned(u.regs[ESI], stk[6], low)]
        [EBP := Assigned(u.regs[EBP], stk[5], low)][EBX := Assigned(u.regs[EBX], stk[3], low)]
        [EDX := Assigned(u.regs[EDX], stk[2], low)][ECX := Assigned(u.regs[ECX], stk[1], low)]
        [EAX := Assigned(u.regs[EAX], stk[0], low)][ESP := top];
  }

  lemma PopPointersTakes(u: Cpu, top: uint32, stk: seq<uint32>)
    requires Holds(u, top, stk) && |stk| == 8
    ensures
      var low := u.operandSize16;
      var t := u.(regs := u.regs[ESP := WithDepth(top, 5, low)]
        [EDI := Assigned(u.regs[EDI], stk[7], low)][ESI := Assigned(u.regs[ESI], stk[6], low)]
        [EBP := Assigned(u.regs[EBP], stk[5], low)]);
      PopPointers(u) == Ok(t) && Holds(t, top, stk[..5])
  {
    hide PopR, Holds, Assigned, WithDepth;
    PopRTakes(u, top, stk, EDI);
    var u1 := PopR(u, EDI).value;
    assert stk[..7][..6] == stk[..6];
    PopRTakes(u1, top, stk[..7], ESI);
    var u2 := PopR(u1, ESI).value;
    assert stk[..6][..5] == stk[..5];
    PopRTakes(u2, top, stk[..6], EBP);
    var low := u.operandSize16;
    assert PopR(u2, EBP).value.regs == u.regs[ESP := WithDepth(top, 5, low)]
      [EDI := Assigned(u.regs[EDI], stk[7], low)][ESI := Assigned(u.regs[ESI], stk[6], low)]
      [EBP := Assigned(u.regs[EBP], stk[5], low)];
  }

  lemma PopOthersTakes(u: Cpu, top: uint32, stk: seq<uint32>)
    requires Holds(u, top, stk) && |stk| == 4
    ensures
      var low := u.operandSize16;
      var t := u.(regs := u.regs[ESP := WithDepth(top, 0, low)]
        [EBX := Assigned(u.regs[EBX], stk[3], low)][EDX := Assigned(u.regs[EDX], stk[2], low)]
        [ECX := Assigned(u.regs[ECX], stk[1], low)][EAX := Assigned(u.regs[EAX], stk[0], low)]);
      PopOthers(u) == Ok(t) && Holds(t, top, [])
  {
    hide PopR, Holds, Assigned, WithDepth;
    PopRTakes(u, top, stk, EBX);
    var u1 := PopR(u, EBX).value;
    assert stk[..3][..2] == stk[..2];
    PopRTakes(u1, top, stk[..3], EDX);
    var u2 := PopR(u1, EDX).value;
    assert stk[..2][..1] == stk[..1];
    PopRTakes(u2, top, stk[..2], ECX);
    var u3 := PopR(u2, ECX).value;
    assert stk[..1][..0] == [];
    PopRTakes(u3, top, stk[..1], EAX);
    var low := u.operandSize16;
    assert PopR(u3, EAX).value.regs == u.regs[ESP := WithDepth(top, 0, low)]
      [EBX := Assigned(u.regs[EBX], stk[3], low)][EDX := Assigned(u.regs[EDX], stk[2], low)]
      [ECX := Assigned(u.regs[ECX], stk[1], low)][EAX := Assigned(u.regs[EAX], stk[0], low)];
  }

  /** POPA discards the saved stack pointer by moving ESP past it. */
  lemma SkipPopped(t: Cpu, top: uint32, stk: seq<uint32>)
    requires Holds(t, top, stk) && stk != []
    ensures
      var d := |stk| - 1;
      var v := SetReg(t, ESP, Wrap32(Reg(t, ESP) as int + OperandSize(t)));
      v == t.(regs := t.regs[ESP := WithDepth(top, d, t.operandSize16)]) && Holds(v, top, stk[..d])
  {
    hide Stored, Bump;
    var n: int := OperandSize(t);
    BumpAdd(top, 0 - |stk| * n, n, t.operandSize16);
    MoveIsBump(t, n);
    assert Holds(t.(regs := t.regs[ESP := WithDepth(top, |stk| - 1, t.operandSize16)]), top, stk[..|stk| - 1]) by {
      PopRefines(t, top, stk);
    }
  }

  lemma MoveIsBump(t: Cpu, n: int)
    requires n == OperandSize(t)
    ensures SetReg(t, ESP, Wrap32(Reg(t, ESP) as int + n)) == SetReg32(t, ESP, Bump(t.regs[ESP], n, t.operandSize16))
  {
    if t.operandSize16 {
      WrapAdd(t.regs[ESP], 2);
      assert Wrap32(Reg(t, ESP) as int + n) == Reg(t, ESP) + 2;
    }
  }

  /** The upper halves agree where the operand size does not reach them. */
  ghost predicate SameUpper(s: Cpu, u: Cpu, i: RegisterIndex) {
    s.operandSize16 ==> s.regs[i] / 0x1_0000 == u.regs[i] / 0x1_0000
  }

  lemma AssignedBack(r: uint32, old': uint32, low: bool)
    requires low ==> r / 0x1_0000 == old' / 0x1_0000
    ensures Assigned(r, Pointer(old', low), low) == old'
  {
    if low {
      assert r - r % 0x1_0000 == 0x1_0000 * (r / 0x1_0000);
    }
  }

  /** Memory `m'` holds what `m` holds in the first `depth` slots. */
  ghost predicate SlotsKept(m: Memory, m': Memory, top: uint32, depth: nat, low: bool) {
    forall j :: 1 <= j <= depth ==> Same(m, m', Slot(top, j, low), SlotSize(low))
  }

  lemma StoredTransfers(m: Memory, m': Memory, top: uint32, stk: seq<uint32>, low: bool)
    requires Stored(m, low, top, stk) && SlotsKept(m, m', top, |stk|, low)
    ensures Stored(m', low, top, stk)
  {
    hide Slot, Get, Mapped, Same;
    forall j | 0 <= j < |stk|
      ensures Contains(m', Slot(top, j + 1, low), SlotSize(low), stk[j])
    {
      assert Contains(m, Slot(top, j + 1, low), SlotSize(low), stk[j]);
      SameGet(m, m', Slot(top, j + 1, low), SlotSize(low));
    }
  }

  /** POPA undoes PUSHA, whatever happened in between to the registers, the flags and the rest of memory:
      it restores all eight registers and nothing else.  PUSHA itself changes nothing outside its block. */
  lemma PopaUndoesPusha(s: Cpu, u: Cpu)
    requires Pusha(s).Ok?
    requires u.operandSize16 == s.operandSize16 && u.regs[ESP] == Pusha(s).value.regs[ESP]
    requires forall i: RegisterIndex :: SameUpper(s, u, i)
    requires SlotsKept(Pusha(s).value.memory, u.memory, s.regs[ESP], 8, s.operandSize16)
    ensures Popa(u) == Ok(u.(regs := s.regs))
    ensures OnlyStack(s, Pusha(s).value, s.regs[ESP], 8)
  {
    hide Pusha, Popa, Stored, OutsideSlots, SlotsKept, Assigned, Bump, Slot;
    var t, top, stk, low := Pusha(s).value, s.regs[ESP], General(s), s.operandSize16;
    PushaSaves(s);
    StoredTransfers(t.memory, u.memory, top, stk, low);
    PopaRestores(u, top, stk);
    forall i: RegisterIndex
      ensures Assigned(u.regs[i], Reg(s, i), low) == s.regs[i]
    {
      assert SameUpper(s, u, i);
      AssignedBack(u.regs[i], s.regs[i], low);
    }
    assert Popa(u).value.regs == s.regs;
  }

  // ----- ENTER and LEAVE -----

  /** `t` differs from `s` in ESP, EBP and the bytes of the first `depth` slots at most. */
  ghost predicate OnlyFrame(s: Cpu, t: Cpu, top: uint32, depth: nat) {
    && OnlyStack(s.(regs := s.regs[EBP := t.regs[EBP]]), t, top, depth)
    && SameUpper(s, t, EBP)
  }

  /** What the frame-pointer loop pushes in rounds `i` to `level`: the frame pointer one slot lower each
      time, not the words it points at. */
  function Display(bp: uint32, i: nat, level: nat, low: bool): (r: seq<uint32>)
    ensures |r| == if i < level then level - i else 0
    decreases level - i
  {
    if i >= level then []
    else
      var next := Truncate(bp as int - SlotSize(low), low);
      [next] + Display(next, i + 1, level, low)
  }

  /** One round of the loop. */
  ghost function EnterStep(s: Cpu): Step {
    PushR(SetReg(s, EBP, Wrap32(Reg(s, EBP) as int - OperandSize(s))), EBP)
  }

  lemma EnterRound(s0: Cpu, s: Cpu, top: uint32, stk: seq<uint32>, depth: nat)
    requires Holds(s, top, stk) && OnlyFrame(s0, s, top, depth)
    requires |stk| < depth && NoLap(depth, s.operandSize16) && EnterStep(s).Ok?
    ensures
      var u, v := EnterStep(s).value, Truncate(Reg(s, EBP) as int - SlotSize(s.operandSize16), s.operandSize16);
      && Holds(u, top, stk + [v]) && OnlyFrame(s0, u, top, depth)
      && u.operandSize16 == s.operandSize16 && Reg(u, EBP) == v
  {
    hide Push, Slot, Bump, Stored, OutsideSlots, NoLap;
    var t := SetReg(s, EBP, Wrap32(Reg(s, EBP) as int - OperandSize(s)));
    LowerFrame(s);
    StillFrame(s0, s, t, top, depth);
    var s1 := s0.(regs := s0.regs[EBP := t.regs[EBP]]);
    PushKeeps(s1, t, top, stk, Reg(t, EBP), depth);
  }

  lemma {:induction false} EnterLoopPushes(s0: Cpu, s: Cpu, top: uint32, stk: seq<uint32>, i: nat, level: nat, depth: nat)
    requires Holds(s, top, stk) && OnlyFrame(s0, s, top, depth) && |stk| == i >= 1
    requires level < depth && NoLap(depth, s.operandSize16) && EnterLoop(s, i, level).Ok?
    ensures
      var t := EnterLoop(s, i, level).value;
      Holds(t, top, stk + Display(Reg(s, EBP), i, level, s.operandSize16)) && OnlyFrame(s0, t, top, depth)
    decreases level - i
  {
    hide Push, Holds, OnlyFrame, NoLap, SetReg, Reg;
    if i < level {
      var low := s.operandSize16;
      var v := Truncate(Reg(s, EBP) as int - SlotSize(low), low);
      EnterRound(s0, s, top, stk, depth);
      var u := EnterStep(s).value;
      EnterLoopPushes(s0, u, top, stk + [v], i + 1, level, depth);
      assert stk + [v] + Display(v, i + 1, level, low) == stk + ([v] + Display(v, i + 1, level, low));
    } else {
      assert stk + [] == stk;
    }
  }

  lemma LowerFrame(s: Cpu)
    ensures
      var t := SetReg(s, EBP, Wrap32(Reg(s, EBP) as int - OperandSize(s)));
      && Reg(t, EBP) == Truncate(Reg(s, EBP) as int - OperandSize(s), s.operandSize16)
      && Truncate(Reg(t, EBP), s.operandSize16) == Reg(t, EBP)
      && SameUpper(s, t, EBP)
  {
    if s.operandSize16 {
      LowHalfParts(s.regs[EBP], Wrap16(Wrap32(Reg(s, EBP) as int - 2)));
      UpperKept(s.regs[EBP], Wrap16(Wrap32(Reg(s, EBP) as int - 2)));
    }
  }

  lemma UpperKept(r: uint32, v: uint16)
    ensures LowHalf(r, v) / 0x1_0000 == r / 0x1_0000
  {
    assert LowHalf(r, v) == 0x1_0000 * (r / 0x1_0000) + v;
  }

  lemma StillFrame(s0: Cpu, s: Cpu, t: Cpu, top: uint32, depth: nat)
    requires OnlyFrame(s0, s, top, depth) && t == s.(regs := s.regs[EBP := t.regs[EBP]]) && SameUpper(s, t, EBP)
    ensures OnlyFrame(s0, t, top, depth)
  {
    hide OutsideSlots;
    assert t.regs == s0.regs[EBP := t.regs[EBP]][ESP := t.regs[ESP]];
  }

  /** What ENTER leaves on the stack: the caller's frame pointer, the display, and at nesting levels
      above zero the new frame pointer, which is the address of the first of these. */
  ghost function EnterSaves(s: Cpu, level: nat): seq<uint32> {
    var low := s.operandSize16;
    [Reg(s, EBP)] + Display(Reg(s, EBP), 1, level, low) + if level > 0 then [Slot(s.regs[ESP], 1, low)] else []
  }

  lemma EnterPushes(s: Cpu, level: nat)
    requires level < 32
    requires PushR(s, EBP).Ok? && EnterLoop(PushR(s, EBP).value, 1, level).Ok?
    ensures
      var low, top := s.operandSize16, s.regs[ESP];
      var t := PushR(s, EBP).value;
      var u := EnterLoop(t, 1, level).value;
      && Reg(t, ESP) == Slot(top, 1, low) && u.operandSize16 == low
      && Holds(u, top, [Reg(s, EBP)] + Display(Reg(s, EBP), 1, level, low)) && OnlyFrame(s, u, top, level + 1)
  {
    hide Push, Bump, Stored, OutsideSlots;
    var low, top := s.operandSize16, s.regs[ESP];
    HoldsNothing(s);
    SameOnlyStack(s, s, top, level + 1);
    PushRKeeps(s, s, top, [], EBP, level + 1);
    var t := PushR(s, EBP).value;
    assert [] + [Reg(s, EBP)] == [Reg(s, EBP)];
    assert s.regs[EBP := t.regs[EBP]] == s.regs;
    EnterLoopPushes(s, t, top, [Reg(s, EBP)], 1, level, level + 1);
  }

  /** The state before ENTER assigns the two pointers. */
  ghost function EnterPushed(s: Cpu, level: nat): Step {
    var t :- PushR(s, EBP);
    var u :- EnterLoop(t, 1, level);
    if level > 0 then Push(u, Reg(t, ESP)) else Ok(u)
  }

  lemma EnterPushedHolds(s: Cpu, level: nat)
    requires level < 32 && EnterPushed(s, level).Ok?
    ensures
      var v, top := EnterPushed(s, level).value, s.regs[ESP];
      Holds(v, top, EnterSaves(s, level)) && OnlyFrame(s, v, top, level + 1)
  {
    hide PushR, Push, Holds, Reg, OutsideSlots, Slot, SetReg, Display, EnterLoop;
    var low, top := s.operandSize16, s.regs[ESP];
    EnterPushes(s, level);
    var u := EnterLoop(PushR(s, EBP).value, 1, level).value;
    var stk := [Reg(s, EBP)] + Display(Reg(s, EBP), 1, level, low);
    if level > 0 {
      SlotFits(top, 1, low);
      var s1 := s.(regs := s.regs[EBP := u.regs[EBP]]);
      PushKeeps(s1, u, top, stk, Slot(top, 1, low), level + 1);
    } else {
      assert stk + [] == stk;
    }
  }

  lemma SlotFits(top: uint32, d: nat, low: bool)
    ensures Truncate(Slot(top, d, low), low) == Slot(top, d, low)
  {
  }

  lemma BumpUpper(r: uint32, d: int)
    ensures Bump(r, d, true) / 0x1_0000 == r / 0x1_0000
  {
    UpperKept(r, Wrap16(r + d));
  }

  /** ENTER: the frame pointer on the first pushed word, the stack pointer `size` bytes below it, the saved
      words in their slots, and no other register or byte changed. */
  lemma EnterBuilds(s: Cpu, size: uint16, level: nat)
    requires level < 32 && EnterFrame(s, size, level).Ok?
    ensures
      var t, top, low := EnterFrame(s, size, level).value, s.regs[ESP], s.operandSize16;
      && Reg(t, EBP) == Slot(top, 1, low)
      && Reg(t, ESP) == Truncate(Slot(top, 1, low) as int - size, low)
      && Stored(t.memory, low, top, EnterSaves(s, level))
      && OnlyFrame(s, t, top, level + 1) && SameUpper(s, t, ESP)
  {
    hide PushR, EnterFrame, EnterAssigned, EnterPushed, Stored, Bump, Slot, OutsideSlots, EnterLoop, EnterSaves;
    var low, top := s.operandSize16, s.regs[ESP];
    EnterFrameParts(s, size, level);
    EnterPushedHolds(s, level);
    var v, frame := EnterPushed(s, level).value, Slot(top, 1, low);
    SlotFits(top, 1, low);
    if low {
      BumpUpper(top, 0 - |EnterSaves(s, level)| * SlotSize(low));
    }
    PointersAssigned(v, frame, size);
    var t := EnterAssigned(v, frame, size);
    assert t.regs == s.regs[EBP := t.regs[EBP]][ESP := t.regs[ESP]];
  }

  /** The two assignments that end ENTER. */
  ghost function EnterAssigned(v: Cpu, frame: uint32, size: uint16): Cpu {
    var w := SetReg(v, EBP, frame);
    SetReg(w, ESP, Wrap32(Reg(w, EBP) as int - size))
  }

  lemma EnterFrameParts(s: Cpu, size: uint16, level: nat)
    requires level < 32 && EnterFrame(s, size, level).Ok?
    ensures EnterPushed(s, level).Ok?
    ensures EnterFrame(s, size, level).value ==
            EnterAssigned(EnterPushed(s, level).value, Slot(s.regs[ESP], 1, s.operandSize16), size)
  {
    hide PushR, Push, EnterLoop, SetReg, Slot, Holds, OnlyFrame, Display;
    EnterPushes(s, level);
  }

  lemma PointersAssigned(v: Cpu, frame: uint32, size: uint16)
    requires Truncate(frame, v.operandSize16) == frame
    ensures
      var t := EnterAssigned(v, frame, size);
      && Reg(t, EBP) == frame && Reg(t, ESP) == Truncate(frame as int - size, v.operandSize16)
      && SameUpper(v, t, ESP) && SameUpper(v, t, EBP)
      && t == v.(regs := v.regs[EBP := t.regs[EBP]][ESP := t.regs[ESP]])
  {
    if v.operandSize16 {
      hide LowHalf;
      var p := Wrap16(Wrap32(frame as int - size));
      HalfKept(v.regs[EBP], frame);
      HalfKept(v.regs[ESP], p);
      NarrowTwice(frame as int - size);
    }
  }

  lemma HalfKept(r: uint32, v: uint16)
    ensures LowHalf(r, v) % 0x1_0000 == v && LowHalf(r, v) / 0x1_0000 == r / 0x1_0000
  {
    LowHalfParts(r, v);
    UpperKept(r, v);
  }

  /** LEAVE undoes ENTER for every frame size and nesting level: the body may change every register but
      the frame pointer and every byte but the saved frame pointer, which no push of ENTER's own loop
      overwrites. */
  lemma LeaveUndoesEnter(s: Cpu, size: uint16, level: nat, u: Cpu)
    requires level < 32 && EnterFrame(s, size, level).Ok?
    requires u.operandSize16 == s.operandSize16 && Reg(u, EBP) == Reg(EnterFrame(s, size, level).value, EBP)
    requires SameUpper(s, u, ESP) && SameUpper(s, u, EBP)
    requires SlotsKept(EnterFrame(s, size, level).value.memory, u.memory, s.regs[ESP], 1, s.operandSize16)
    ensures LeaveFrame(u) == Ok(u.(regs := u.regs[ESP := s.regs[ESP]][EBP := s.regs[EBP]]))
  {
    hide EnterFrame, Pop, OutsideSlots, Slot, Bump, Assigned;
    var t, top, low := EnterFrame(s, size, level).value, s.regs[ESP], s.operandSize16;
    var saved := [Reg(s, EBP)];
    EnterBuilds(s, size, level);
    assert EnterSaves(s, level)[0] == Reg(s, EBP);
    assert Stored(t.memory, low, top, saved);
    StoredTransfers(t.memory, u.memory, top, saved, low);
    var v := SetReg(u, ESP, Reg(u, EBP));
    FramePointsAtSlot(s, u);
    PopRTakes(v, top, saved, EBP);
    AssignedBack(u.regs[EBP], s.regs[EBP], low);
    BumpZero(top, low);
    assert PopR(v, EBP).value.regs == u.regs[ESP := s.regs[ESP]][EBP := s.regs[EBP]];
  }

  lemma FramePointsAtSlot(s: Cpu, u: Cpu)
    requires u.operandSize16 == s.operandSize16 && SameUpper(s, u, ESP)
    requires Reg(u, EBP) == Slot(s.regs[ESP], 1, s.operandSize16)
    ensures SetReg(u, ESP, Reg(u, EBP)).regs == u.regs[ESP := Bump(s.regs[ESP], 0 - SlotSize(s.operandSize16), s.operandSize16)]
  {
    hide Bump, Slot, LowHalf, Pointer;
    if s.operandSize16 {
      HalfFramePointer(s, u);
    } else {
      FullFramePointer(s, u);
    }
  }

  lemma HalfFramePointer(s: Cpu, u: Cpu)
    requires s.operandSize16 && u.operandSize16 && SameUpper(s, u, ESP)
    requires Reg(u, EBP) == Slot(s.regs[ESP], 1, true)
    ensures SetReg(u, ESP, Reg(u, EBP)).regs == u.regs[ESP := Bump(s.regs[ESP], -2, true)]
  {
    hide Bump, LowHalf;
    HalfMoves(s.regs[ESP], -2);
    PointerBump(s.regs[ESP], -2, true);
    BumpIsHalf(s.regs[ESP], -2);
    SameHalves(u.regs[ESP], s.regs[ESP], Wrap16(s.regs[ESP] as int - 2));
    WrapAdd(s.regs[ESP] as int - 2, 0);
  }

  lemma BumpIsHalf(r: uint32, d: int)
    ensures Bump(r, d, true) == LowHalf(r, Wrap16(r + d)) && Pointer(Bump(r, d, true), true) == Wrap16(r + d)
  {
    LowHalfParts(r, Wrap16(r + d));
  }

  lemma FullFramePointer(s: Cpu, u: Cpu)
    requires !s.operandSize16 && !u.operandSize16
    requires Reg(u, EBP) == Slot(s.regs[ESP], 1, false)
    ensures SetReg(u, ESP, Reg(u, EBP)).regs == u.regs[ESP := Bump(s.regs[ESP], -4, false)]
  {
  }

  lemma SameHalves(r: uint32, x: uint32, v: uint16)
    requires r / 0x1_0000 == x / 0x1_0000
    ensures LowHalf(r, v) == LowHalf(x, v)
  {
    assert r - r % 0x1_0000 == 0x1_0000 * (r / 0x1_0000);
    assert x - x % 0x1_0000 == 0x1_0000 * (x / 0x1_0000);
  }

  /** The manual subtracts the frame size after the display is pushed; the emulator subtracts it from the
      frame pointer, so its ESP is the documented one exactly at nesting level zero. */
  lemma EnterStackPointer(s: Cpu, size: uint16, level: nat)
    requires level < 32 && EnterFrame(s, size, level).Ok?
    ensures
      var low, below := s.operandSize16, Slot(s.regs[ESP], |EnterSaves(s, level)|, s.operandSize16);
      Reg(EnterFrame(s, size, level).value, ESP) == Truncate(below as int - size, low) <==> level == 0
  {
    hide EnterFrame, Stored, OnlyFrame, Slot, SameUpper, Truncate;
    var low := s.operandSize16;
    EnterBuilds(s, size, level);
    SlotsDiffer(s.regs[ESP], |EnterSaves(s, level)|, size, low);
  }

  lemma SlotsDiffer(top: uint32, d: nat, size: uint16, low: bool)
    requires 1 <= d <= 32
    ensures Truncate(Slot(top, 1, low) as int - size, low) == Truncate(Slot(top, d, low) as int - size, low) <==> d == 1
  {
    hide Slot, Truncate;
    SlotSum(top, 1, size, low);
    SlotSum(top, d, size, low);
    var far: int := d * SlotSize(low) - SlotSize(low);
    assert 0 <= far < Modulus(low) && (far == 0 <==> d == 1);
    TruncateSum(Pointer(top, low) as int - SlotSize(low) - size, 0 - far, low);
  }

  lemma SlotSum(top: uint32, d: nat, size: uint16, low: bool)
    ensures Truncate(Slot(top, d, low) as int - size, low) == Truncate(Pointer(top, low) as int - d * SlotSize(low) - size, low)
  {
    hide Bump, Pointer, Truncate;
    PointerBump(top, 0 - d * SlotSize(low), low);
    TruncateAdd(Pointer(top, low) as int - d * SlotSize(low), 0 - size, low);
  }

  lemma TruncateAdd(p: int, d: int, low: bool)
    ensures Truncate(Truncate(p, low) as int + d, low) == Truncate(p + d, low)
  {
    WrapAdd(p, d);
  }
}
