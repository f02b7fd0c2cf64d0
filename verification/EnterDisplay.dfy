/**
  ENTER against the processor manual (Intel SDM Volume 2, ENTER).  The manual copies the display of the
  enclosing frame word by word; the emulator pushes the address of each word instead.  The two leave
  the same stack exactly when every such word holds its own address.
*/
module EnterDisplay {
  import opened Words
  import opened FlatMemory
  import opened Arithmetic
  import opened CpuState
  import opened Isa
  import opened Pointers
  import opened StackRuns
  import opened Frames

  // ----- The documented instruction -----

  /** EBP one slot lower. */
  function LoweredFrame(s: Cpu): Cpu { SetReg(s, EBP, Wrap32(Reg(s, EBP) as int - OperandSize(s))) }

  /** One documented round: the word that the lowered EBP points at is pushed. */
  function DocumentedStep(s: Cpu): Step {
    var t := LoweredFrame(s);
    var word :- ReadW(t, Reg(t, EBP));
    Push(t, word)
  }

  function DocumentedLoop(s: Cpu, i: nat, level: nat): Step
    decreases level - i
  {
    if i >= level then Ok(s)
    else
      var u :- DocumentedStep(s);
      DocumentedLoop(u, i + 1, level)
  }

  function DocumentedPushed(s: Cpu, level: nat): Step {
    var t :- PushR(s, EBP);
    var u :- DocumentedLoop(t, 1, level);
    if level > 0 then Push(u, Reg(t, ESP)) else Ok(u)
  }

  /** The frame size is taken off the stack pointer as the pushes leave it. */
  function DocumentedAssigned(v: Cpu, frame: uint32, size: uint16): Cpu {
    var w := SetReg(v, EBP, frame);
    SetReg(w, ESP, Wrap32(Reg(w, ESP) as int - size))
  }

  function DocumentedEnter(s: Cpu, size: uint16, level: nat): Step {
    var t :- PushR(s, EBP);
    var v :- DocumentedPushed(s, level);
    Ok(DocumentedAssigned(v, Reg(t, ESP), size))
  }

  // ----- What it pushes -----

  /** The word that round `i` of the documented loop copies. */
  function CopiedWord(s: Cpu): uint32
    requires DocumentedStep(s).Ok?
  {
    var t := LoweredFrame(s);
    ReadW(t, Reg(t, EBP)).value
  }

  function CopiedWords(s: Cpu, i: nat, level: nat): (r: seq<uint32>)
    requires DocumentedLoop(s, i, level).Ok?
    ensures |r| == if i < level then level - i else 0
    decreases level - i
  {
    if i >= level then [] else [CopiedWord(s)] + CopiedWords(DocumentedStep(s).value, i + 1, level)
  }

  lemma WordFits(s: Cpu, a: uint32)
    ensures ReadW(s, a).Ok? ==> ReadW(s, a).value < Modulus(s.operandSize16)
  {
    if ReadW(s, a).Ok? {
      GetBound(s.memory, a, OperandSize(s));
      Pow256Values();
    }
  }

  lemma CopyRound(s0: Cpu, s: Cpu, top: uint32, stk: seq<uint32>, depth: nat)
    requires Holds(s, top, stk) && OnlyFrame(s0, s, top, depth)
    requires |stk| < depth && NoLap(depth, s.operandSize16) && DocumentedStep(s).Ok?
    ensures
      var u := DocumentedStep(s).value;
      && Holds(u, top, stk + [CopiedWord(s)]) && OnlyFrame(s0, u, top, depth)
      && u.operandSize16 == s.operandSize16
  {
    hide Push, Holds, OnlyFrame, OnlyStack, NoLap, Read, LoweredFrame, Reg, SameUpper;
    var t := LoweredFrame(s);
    LoweredHolds(s0, s, top, stk, depth);
    WordFits(t, Reg(t, EBP));
    FitsTruncated(CopiedWord(s), s.operandSize16);
    PushKeeps(s0.(regs := s0.regs[EBP := t.regs[EBP]]), t, top, stk, CopiedWord(s), depth);
    StillOnlyFrame(s0, t, Push(t, CopiedWord(s)).value, top, depth);
  }

  lemma FitsTruncated(v: uint32, low: bool)
    requires v < Modulus(low)
    ensures Truncate(v, low) == v
  {
  }

  lemma LoweredHolds(s0: Cpu, s: Cpu, top: uint32, stk: seq<uint32>, depth: nat)
    requires Holds(s, top, stk) && OnlyFrame(s0, s, top, depth)
    ensures
      var t := LoweredFrame(s);
      && Holds(t, top, stk) && OnlyStack(s0.(regs := s0.regs[EBP := t.regs[EBP]]), t, top, depth)
      && SameUpper(s0, t, EBP) && t.operandSize16 == s.operandSize16 == s0.operandSize16
  {
    hide Stored, OutsideSlots, LowHalf, Reg;
    LowerFrame(s);
    StillFrame(s0, s, LoweredFrame(s), top, depth);
  }

  /** A push changes neither EBP nor the operand size. */
  lemma StillOnlyFrame(s0: Cpu, t: Cpu, u: Cpu, top: uint32, depth: nat)
    requires OnlyStack(s0.(regs := s0.regs[EBP := t.regs[EBP]]), u, top, depth) && SameUpper(s0, t, EBP)
    ensures OnlyFrame(s0, u, top, depth) && u.operandSize16 == s0.operandSize16
  {
    hide OutsideSlots;
  }

  lemma {:induction false} CopyLoop(s0: Cpu, s: Cpu, top: uint32, stk: seq<uint32>, i: nat, level: nat, depth: nat)
    requires Holds(s, top, stk) && OnlyFrame(s0, s, top, depth) && |stk| == i >= 1
    requires level < depth && NoLap(depth, s.operandSize16) && DocumentedLoop(s, i, level).Ok?
    ensures
      var t := DocumentedLoop(s, i, level).value;
      && Holds(t, top, stk + CopiedWords(s, i, level)) && OnlyFrame(s0, t, top, depth)
      && t.operandSize16 == s.operandSize16
    decreases level - i
  {
    hide DocumentedStep, CopiedWord, Holds, OnlyFrame, NoLap;
    if i < level {
      CopyRound(s0, s, top, stk, depth);
      var u, v := DocumentedStep(s).value, CopiedWord(s);
      CopyLoop(s0, u, top, stk + [v], i + 1, level, depth);
      assert stk + [v] + CopiedWords(u, i + 1, level) == stk + ([v] + CopiedWords(u, i + 1, level));
    } else {
      assert stk + [] == stk;
    }
  }

  ghost function DocumentedSaves(s: Cpu, level: nat): seq<uint32>
    requires DocumentedPushed(s, level).Ok?
  {
    [Reg(s, EBP)] + CopiedWords(PushR(s, EBP).value, 1, level) + if level > 0 then [Slot(s.regs[ESP], 1, s.operandSize16)] else []
  }

  lemma DocumentedPushes(s: Cpu, level: nat)
    requires level < 32 && DocumentedPushed(s, level).Ok?
    ensures Reg(PushR(s, EBP).value, ESP) == Slot(s.regs[ESP], 1, s.operandSize16)
    ensures
      var v, top := DocumentedPushed(s, level).value, s.regs[ESP];
      Holds(v, top, DocumentedSaves(s, level)) && OnlyFrame(s, v, top, level + 1) && v.operandSize16 == s.operandSize16
  {
    hide Push, Stored, OutsideSlots, DocumentedLoop, CopiedWords, Slot;
    var low, top := s.operandSize16, s.regs[ESP];
    HoldsNothing(s);
    SameOnlyStack(s, s, top, level + 1);
    PushRKeeps(s, s, top, [], EBP, level + 1);
    var t := PushR(s, EBP).value;
    assert [] + [Reg(s, EBP)] == [Reg(s, EBP)];
    assert s.regs[EBP := t.regs[EBP]] == s.regs;
    FirstSlot(t, top, [Reg(s, EBP)]);
    CopyLoop(s, t, top, [Reg(s, EBP)], 1, level, level + 1);
    var u, stk := DocumentedLoop(t, 1, level).value, [Reg(s, EBP)] + CopiedWords(t, 1, level);
    if level > 0 {
      SlotFits(top, 1, low);
      PushKeeps(s.(regs := s.regs[EBP := u.regs[EBP]]), u, top, stk, Slot(top, 1, low), level + 1);
    } else {
      assert stk + [] == stk;
    }
  }

  lemma FirstSlot(t: Cpu, top: uint32, stk: seq<uint32>)
    requires Holds(t, top, stk)
    ensures Reg(t, ESP) == Slot(top, |stk|, t.operandSize16)
  {
  }

  // ----- When the two agree -----

  /** From round `i` on, each word that the manual copies holds its own address when its turn comes. */
  ghost predicate HoldOwnAddress(s: Cpu, i: nat, level: nat)
    decreases level - i
  {
    i < level ==>
      var t := LoweredFrame(s);
      && ReadW(t, Reg(t, EBP)) == Ok(Reg(t, EBP))
      && EnterStep(s).Ok? && HoldOwnAddress(EnterStep(s).value, i + 1, level)
  }

  lemma SameStep(s: Cpu)
    requires DocumentedStep(s).Ok? && CopiedWord(s) == Reg(LoweredFrame(s), EBP)
    ensures DocumentedStep(s) == EnterStep(s)
  {
    hide Push, Read, Reg, SetReg;
  }

  lemma NextLink(s: Cpu)
    ensures Reg(LoweredFrame(s), EBP) == Truncate(Reg(s, EBP) as int - SlotSize(s.operandSize16), s.operandSize16)
    ensures LoweredFrame(s).operandSize16 == s.operandSize16
  {
    LowerFrame(s);
  }

  lemma StepFrame(s: Cpu)
    requires EnterStep(s).Ok?
    ensures Reg(EnterStep(s).value, EBP) == Reg(LoweredFrame(s), EBP) && EnterStep(s).value.operandSize16 == s.operandSize16
  {
    hide Put, Writable, LowHalf;
  }

  /** The copied words are the pushed addresses exactly when they hold their own. */
  lemma {:induction false} WordsAreLinks(s: Cpu, i: nat, level: nat)
    requires DocumentedLoop(s, i, level).Ok?
    ensures CopiedWords(s, i, level) == Display(Reg(s, EBP), i, level, s.operandSize16) <==> HoldOwnAddress(s, i, level)
    ensures HoldOwnAddress(s, i, level) ==> DocumentedLoop(s, i, level) == EnterLoop(s, i, level)
    decreases level - i
  {
    hide DocumentedStep, EnterStep, LoweredFrame, Reg, Read;
    if i < level {
      NextLink(s);
      CopyReads(s);
      var link := Reg(LoweredFrame(s), EBP);
      var words, display := CopiedWords(s, i, level), Display(Reg(s, EBP), i, level, s.operandSize16);
      assert words[0] == CopiedWord(s) && display[0] == link;
      if CopiedWord(s) == link {
        SameStep(s);
        StepFrame(s);
        var u := DocumentedStep(s).value;
        WordsAreLinks(u, i + 1, level);
        LoopStep(s, i, level);
        assert words[1..] == CopiedWords(u, i + 1, level);
        assert display[1..] == Display(link, i + 1, level, s.operandSize16);
        assert words == [words[0]] + words[1..] && display == [display[0]] + display[1..];
      }
    }
  }

  lemma CopyReads(s: Cpu)
    requires DocumentedStep(s).Ok?
    ensures ReadW(LoweredFrame(s), Reg(LoweredFrame(s), EBP)) == Ok(CopiedWord(s))
  {
    hide Push, Read;
  }

  lemma LoopStep(s: Cpu, i: nat, level: nat)
    requires i < level && EnterStep(s).Ok?
    ensures EnterLoop(s, i, level) == EnterLoop(EnterStep(s).value, i + 1, level)
  {
    hide Push, SetReg, Reg;
  }

  /** Equal memories hold equal sequences. */
  lemma StoredDetermines(m: Memory, low: bool, top: uint32, stk: seq<uint32>, stk': seq<uint32>)
    requires Stored(m, low, top, stk) && Stored(m, low, top, stk') && |stk| == |stk'|
    ensures stk == stk'
  {
    hide Slot, Get, Mapped;
    forall j | 0 <= j < |stk|
      ensures stk[j] == stk'[j]
    {
      assert Contains(m, Slot(top, j + 1, low), SlotSize(low), stk[j]);
      assert Contains(m, Slot(top, j + 1, low), SlotSize(low), stk'[j]);
    }
  }

  /** The pushes leave the same memory exactly when every word of the display holds its own address. */
  lemma SamePushes(s: Cpu, level: nat)
    requires level < 32 && EnterPushed(s, level).Ok? && DocumentedPushed(s, level).Ok?
    ensures EnterPushed(s, level).value.memory == DocumentedPushed(s, level).value.memory
            <==> HoldOwnAddress(PushR(s, EBP).value, 1, level)
  {
    hide PushR, Push, EnterLoop, DocumentedLoop, CopiedWords, Display, Slot, Stored, OutsideSlots, HoldOwnAddress, Reg;
    var t, low, top := PushR(s, EBP).value, s.operandSize16, s.regs[ESP];
    PushedFrame(s);
    WordsAreLinks(t, 1, level);
    if EnterPushed(s, level).value.memory == DocumentedPushed(s, level).value.memory {
      EnterPushedHolds(s, level);
      DocumentedPushes(s, level);
      SavesAlike(s, level);
      StoredDetermines(EnterPushed(s, level).value.memory, low, top, EnterSaves(s, level), DocumentedSaves(s, level));
      Middle([Reg(s, EBP)], Display(Reg(s, EBP), 1, level, low), CopiedWords(t, 1, level),
             if level > 0 then [Slot(top, 1, low)] else []);
    }
  }

  lemma Middle(a: seq<uint32>, x: seq<uint32>, y: seq<uint32>, b: seq<uint32>)
    requires |x| == |y| && a + x + b == a + y + b
    ensures x == y
  {
    assert x == (a + x + b)[|a|..|a| + |x|] && y == (a + y + b)[|a|..|a| + |y|];
  }

  lemma PushedFrame(s: Cpu)
    requires PushR(s, EBP).Ok?
    ensures Reg(PushR(s, EBP).value, EBP) == Reg(s, EBP) && PushR(s, EBP).value.operandSize16 == s.operandSize16
  {
    hide Put, Writable;
  }

  lemma SavesAlike(s: Cpu, level: nat)
    requires DocumentedPushed(s, level).Ok?
    ensures |DocumentedSaves(s, level)| == |EnterSaves(s, level)|
  {
    hide PushR, DocumentedLoop, Slot, Reg;
  }

  lemma DocumentedPointers(v: Cpu, frame: uint32, size: uint16)
    requires Truncate(frame, v.operandSize16) == frame
    ensures
      var d := DocumentedAssigned(v, frame, size);
      && Reg(d, EBP) == frame && Reg(d, ESP) == Truncate(Reg(v, ESP) as int - size, v.operandSize16)
      && d.memory == v.memory
      && (Reg(v, ESP) == frame ==> d == EnterAssigned(v, frame, size))
  {
    if v.operandSize16 {
      hide LowHalf;
      var p := Wrap16(Wrap32(Reg(v, ESP) as int - size));
      HalfKept(v.regs[EBP], frame);
      HalfKept(v.regs[ESP], p);
      NarrowTwice(Reg(v, ESP) as int - size);
    }
  }

  lemma NoRounds(s: Cpu)
    ensures PushR(s, EBP).Ok? ==> EnterPushed(s, 0) == DocumentedPushed(s, 0)
  {
    hide PushR;
  }

  /** What the final assignments of the two make of the pushed states. */
  lemma EnterEnds(s: Cpu, size: uint16, level: nat)
    requires level < 32 && EnterFrame(s, size, level).Ok? && DocumentedEnter(s, size, level).Ok?
    ensures
      var t, d := EnterFrame(s, size, level).value, DocumentedEnter(s, size, level).value;
      var v, below := DocumentedPushed(s, level).value, Slot(s.regs[ESP], |EnterSaves(s, level)|, s.operandSize16);
      && EnterPushed(s, level).Ok? && t.memory == EnterPushed(s, level).value.memory && d.memory == v.memory
      && Reg(t, EBP) == Reg(d, EBP) && Reg(d, ESP) == Truncate(below as int - size, s.operandSize16)
      && (level == 0 ==> t == d)
  {
    hide PushR, EnterFrame, DocumentedEnter, EnterPushed, DocumentedPushed, Holds, Stored, Slot, OnlyFrame, SameUpper;
    hide DocumentedSaves, EnterSaves, Truncate, EnterAssigned, DocumentedAssigned;
    var frame := Slot(s.regs[ESP], 1, s.operandSize16);
    EnterFrameParts(s, size, level);
    EnterBuilds(s, size, level);
    DocumentedParts(s, size, level);
    DocumentedPushes(s, level);
    var v := DocumentedPushed(s, level).value;
    SavesAlike(s, level);
    SlotFits(s.regs[ESP], 1, s.operandSize16);
    FirstSlot(v, s.regs[ESP], DocumentedSaves(s, level));
    DocumentedPointers(v, frame, size);
    EnterMemory(EnterPushed(s, level).value, frame, size);
    if level == 0 {
      NoRounds(s);
      OneWord(s);
    }
  }

  lemma EnterMemory(v: Cpu, frame: uint32, size: uint16)
    ensures EnterAssigned(v, frame, size).memory == v.memory
  {
    hide LowHalf;
  }

  lemma OneWord(s: Cpu)
    ensures |EnterSaves(s, 0)| == 1
  {
    hide Reg;
  }

  lemma DocumentedParts(s: Cpu, size: uint16, level: nat)
    requires level < 32 && DocumentedEnter(s, size, level).Ok?
    ensures PushR(s, EBP).Ok? && DocumentedPushed(s, level).Ok?
    ensures DocumentedEnter(s, size, level).value ==
            DocumentedAssigned(DocumentedPushed(s, level).value, Slot(s.regs[ESP], 1, s.operandSize16), size)
  {
    hide PushR, DocumentedPushed, SetReg, Slot, Holds, OnlyFrame, Reg;
    DocumentedEnterPushes(s, size, level);
    DocumentedPushes(s, level);
  }

  /** ENTER against the manual, where both complete: the frame pointers are always equal, the stack pointers
      exactly at level zero, and memory exactly when every word of the display holds its own address, which
      levels zero and one have none of. */
  lemma EnterAsDocumented(s: Cpu, size: uint16, level: nat)
    requires level < 32 && EnterFrame(s, size, level).Ok? && DocumentedEnter(s, size, level).Ok?
    ensures
      var t, d := EnterFrame(s, size, level).value, DocumentedEnter(s, size, level).value;
      && Reg(t, EBP) == Reg(d, EBP)
      && (Reg(t, ESP) == Reg(d, ESP) <==> level == 0)
      && (t.memory == d.memory <==> HoldOwnAddress(PushR(s, EBP).value, 1, level))
      && (level <= 1 ==> t.memory == d.memory)
      && (t == d <==> level == 0)
  {
    hide PushR, EnterFrame, DocumentedEnter, EnterPushed, DocumentedPushed, Slot, EnterSaves, Truncate, Reg;
    EnterEnds(s, size, level);
    EnterStackPointer(s, size, level);
    DocumentedEnterPushes(s, size, level);
    SamePushes(s, level);
  }

  lemma DocumentedEnterPushes(s: Cpu, size: uint16, level: nat)
    requires DocumentedEnter(s, size, level).Ok?
    ensures PushR(s, EBP).Ok? && DocumentedPushed(s, level).Ok?
  {
    hide PushR, DocumentedPushed, SetReg;
  }

  // ----- By the memory before the instruction -----

  /** The `i`th word of the enclosing display. */
  ghost function Link(s: Cpu, i: nat): uint32 {
    Truncate(Reg(s, EBP) as int - i * SlotSize(s.operandSize16), s.operandSize16)
  }

  ghost predicate LinkMapped(s: Cpu, i: nat) { Mapped(s.memory, Link(s, i), SlotSize(s.operandSize16)) }

  ghost predicate LinksMapped(s: Cpu, i: nat, level: nat) { forall j :: i <= j < level ==> LinkMapped(s, j) }

  /** The link holds its own address. */
  ghost predicate SelfLinked(s: Cpu, i: nat) { Contains(s.memory, Link(s, i), SlotSize(s.operandSize16), Link(s, i)) }

  ghost predicate SelfLinks(s: Cpu, i: nat, level: nat) { forall j :: i <= j < level ==> SelfLinked(s, j) }

  /** No byte of the link is in the block that ENTER writes. */
  ghost predicate LinkClear(s: Cpu, i: nat, depth: nat) {
    forall x :: Link(s, i) <= x < Link(s, i) + SlotSize(s.operandSize16) ==> OutsideSlots(x, s.regs[ESP], depth, s.operandSize16)
  }

  ghost predicate LinksClear(s: Cpu, i: nat, level: nat, depth: nat) {
    forall j :: i <= j < level ==> LinkClear(s, j, depth)
  }

  lemma LinkBelow(s: Cpu, u: Cpu, i: nat)
    requires i > 0 && u.operandSize16 == s.operandSize16 && Reg(u, EBP) == Link(s, i - 1)
    ensures Reg(LoweredFrame(u), EBP) == Link(s, i)
  {
    hide Truncate, LoweredFrame;
    NextLink(u);
    TruncateAdd(Reg(s, EBP) as int - (i - 1) * SlotSize(s.operandSize16), 0 - SlotSize(s.operandSize16), s.operandSize16);
  }

  /** `u` and `v` differ in the bytes they hold at most. */
  ghost predicate Alike(u: Cpu, v: Cpu) {
    u == v.(memory := u.memory) && u.memory.bytes.Keys == v.memory.bytes.Keys && u.memory.rom == v.memory.rom
  }

  lemma PushAlike(u: Cpu, v: Cpu, x: uint32, y: uint32)
    requires Alike(u, v)
    ensures Push(u, x).Ok? <==> Push(v, y).Ok?
    ensures Push(u, x).Ok? ==> Alike(Push(u, x).value, Push(v, y).value)
  {
    hide Put, Writable, LowHalf;
    var a, b := Wrap16(Reg16(u, ESP) - 2), Wrap32(u.regs[ESP] as int - 4);
    WritableAlike(u.memory, v.memory, LowHalf(u.regs[ESP], a) % 0x1_0000, 2);
    WritableAlike(u.memory, v.memory, b, 4);
  }

  lemma WritableAlike(m: Memory, m': Memory, a: int, n: nat)
    requires m.bytes.Keys == m'.bytes.Keys && m.rom == m'.rom
    ensures Writable(m, a, n) <==> Writable(m', a, n)
  {
    assert forall x :: x in m.bytes.Keys <==> x in m'.bytes.Keys;
  }

  lemma LoweredAlike(u: Cpu, v: Cpu)
    requires Alike(u, v)
    ensures Alike(LoweredFrame(u), LoweredFrame(v))
  {
    hide LowHalf;
  }

  lemma StepParts(s: Cpu)
    ensures EnterStep(s) == Push(LoweredFrame(s), Reg(LoweredFrame(s), EBP))
    ensures
      var t := LoweredFrame(s);
      var read := ReadW(t, Reg(t, EBP));
      && t.memory == s.memory && (read.Ok? <==> Mapped(s.memory, Reg(t, EBP), SlotSize(s.operandSize16)))
      && (if read.Ok? then DocumentedStep(s) == Push(t, read.value) else DocumentedStep(s).Fault?)
  {
    hide Push, Get, Mapped, LowHalf;
  }

  /** A documented round completes exactly when the emulator's does and its link is mapped. */
  lemma StepAlike(s: Cpu, u: Cpu, v: Cpu, i: nat)
    requires Alike(u, v) && i > 0 && Reg(u, EBP) == Link(s, i - 1) && u.operandSize16 == s.operandSize16
    requires u.memory.bytes.Keys == s.memory.bytes.Keys
    ensures DocumentedStep(u).Ok? <==> EnterStep(v).Ok? && LinkMapped(s, i)
    ensures DocumentedStep(u).Ok? ==> Alike(DocumentedStep(u).value, EnterStep(v).value)
  {
    hide Push, Read, LoweredFrame, Alike, Link, Reg, DocumentedStep, EnterStep, Mapped;
    var t, n := LoweredFrame(u), SlotSize(s.operandSize16);
    LinkBelow(s, u, i);
    LoweredAlike(u, v);
    StepParts(u);
    StepParts(v);
    MappedAlike(u.memory, s.memory, Link(s, i), n);
    if Mapped(u.memory, Link(s, i), n) {
      PushAlike(t, LoweredFrame(v), ReadW(t, Reg(t, EBP)).value, Reg(LoweredFrame(v), EBP));
    }
  }

  lemma MappedAlike(m: Memory, m': Memory, a: int, n: nat)
    requires m.bytes.Keys == m'.bytes.Keys
    ensures Mapped(m, a, n) <==> Mapped(m', a, n)
  {
    assert forall x :: x in m.bytes.Keys <==> x in m'.bytes.Keys;
  }

  lemma SameFrame(u: Cpu, v: Cpu)
    requires Alike(u, v)
    ensures Reg(v, EBP) == Reg(u, EBP) && v.operandSize16 == u.operandSize16
  {
  }

  lemma PushKeepsMap(s: Cpu, v: uint32)
    requires Push(s, v).Ok?
    ensures
      var t := Push(s, v).value;
      && t.memory.bytes.Keys == s.memory.bytes.Keys && Reg(t, EBP) == Reg(s, EBP) && t.operandSize16 == s.operandSize16
  {
    hide Put, Writable, LowHalf;
  }

  lemma StepKeepsMap(s: Cpu, v: Cpu, i: nat)
    requires i > 0 && Reg(v, EBP) == Link(s, i - 1) && v.operandSize16 == s.operandSize16 && EnterStep(v).Ok?
    ensures
      var t := EnterStep(v).value;
      && t.memory.bytes.Keys == v.memory.bytes.Keys && Reg(t, EBP) == Link(s, i) && t.operandSize16 == s.operandSize16
  {
    hide Push, LoweredFrame, Link, Reg, EnterStep;
    LinkBelow(s, v, i);
    NextLink(v);
    StepParts(v);
    PushKeepsMap(LoweredFrame(v), Reg(LoweredFrame(v), EBP));
  }

  lemma {:induction false} LoopAlike(s: Cpu, u: Cpu, v: Cpu, i: nat, level: nat)
    requires Alike(u, v) && i > 0 && Reg(v, EBP) == Link(s, i - 1) && v.operandSize16 == s.operandSize16
    requires v.memory.bytes.Keys == s.memory.bytes.Keys
    ensures DocumentedLoop(u, i, level).Ok? <==> EnterLoop(v, i, level).Ok? && LinksMapped(s, i, level)
    ensures DocumentedLoop(u, i, level).Ok? ==> Alike(DocumentedLoop(u, i, level).value, EnterLoop(v, i, level).value)
    decreases level - i
  {
    hide Push, LoweredFrame, Link, Reg, EnterStep, DocumentedStep, LinkMapped;
    if i < level {
      SameFrame(u, v);
      StepAlike(s, u, v, i);
      if EnterStep(v).Ok? {
        StepKeepsMap(s, v, i);
        LoopStep(v, i, level);
        if LinkMapped(s, i) {
          LoopAlike(s, DocumentedStep(u).value, EnterStep(v).value, i + 1, level);
        }
      } else {
        LoopStops(v, i, level);
      }
    }
  }

  lemma LoopStops(s: Cpu, i: nat, level: nat)
    requires i < level && EnterStep(s).Fault?
    ensures EnterLoop(s, i, level).Fault?
  {
    hide Push, SetReg, Reg;
  }

  /** The documented ENTER completes exactly when the emulator's does and every word of the display, which only
      the documented one reads, is mapped. */
  lemma EnterCompletes(s: Cpu, size: uint16, level: nat)
    ensures DocumentedEnter(s, size, level).Ok? <==> EnterFrame(s, size, level).Ok? && LinksMapped(s, 1, level)
  {
    hide PushR, Push, EnterLoop, DocumentedLoop, LinksMapped, Link, SetReg, Alike, Reg;
    if PushR(s, EBP).Ok? {
      var t := PushR(s, EBP).value;
      FirstPush(s);
      LoopAlike(s, t, t, 1, level);
      if DocumentedLoop(t, 1, level).Ok? {
        PushAlike(DocumentedLoop(t, 1, level).value, EnterLoop(t, 1, level).value, Reg(t, ESP), Reg(t, ESP));
      }
    }
  }

  lemma FirstPush(s: Cpu)
    requires PushR(s, EBP).Ok?
    ensures
      var t := PushR(s, EBP).value;
      && Reg(t, EBP) == Link(s, 0) && t.operandSize16 == s.operandSize16
      && t.memory.bytes.Keys == s.memory.bytes.Keys && Alike(t, t)
  {
    hide Push;
    PushKeepsMap(s, Reg(s, EBP));
    RegFits(s, EBP);
  }

  // ----- A display clear of the new block -----

  lemma ClearRead(s: Cpu, u: Cpu, i: nat, depth: nat)
    requires OnlyFrame(s, u, s.regs[ESP], depth) && LinkClear(s, i, depth)
    ensures Same(u.memory, s.memory, Link(s, i), SlotSize(s.operandSize16))
  {
    hide Link, OutsideSlots;
    assert forall x :: x in s.memory.bytes.Keys <==> x in u.memory.bytes.Keys;
  }

  lemma CopiesLink(s: Cpu, u: Cpu, i: nat, depth: nat)
    requires OnlyFrame(s, u, s.regs[ESP], depth) && i > 0 && Reg(u, EBP) == Link(s, i - 1)
    requires DocumentedStep(u).Ok? && LinkClear(s, i, depth) && u.operandSize16 == s.operandSize16
    ensures Contains(s.memory, Link(s, i), SlotSize(s.operandSize16), CopiedWord(u))
    ensures Reg(DocumentedStep(u).value, EBP) == Link(s, i)
  {
    hide Push, LoweredFrame, Link, Reg, OnlyFrame, LinkClear, Mapped, Get, Same;
    var t, n := LoweredFrame(u), SlotSize(s.operandSize16);
    NextLink(u);
    LinkBelow(s, u, i);
    StepParts(u);
    CopyReads(u);
    PushKeepsMap(t, CopiedWord(u));
    ClearRead(s, u, i, depth);
    SameGet(u.memory, s.memory, Link(s, i), n);
  }

  lemma {:induction false} CopiesLinks(s: Cpu, u: Cpu, stk: seq<uint32>, i: nat, level: nat, depth: nat)
    requires Holds(u, s.regs[ESP], stk) && OnlyFrame(s, u, s.regs[ESP], depth) && |stk| == i >= 1
    requires level < depth && NoLap(depth, s.operandSize16) && DocumentedLoop(u, i, level).Ok?
    requires Reg(u, EBP) == Link(s, i - 1) && u.operandSize16 == s.operandSize16 && LinksClear(s, i, level, depth)
    ensures forall j :: i <= j < level ==>
              Contains(s.memory, Link(s, j), SlotSize(s.operandSize16), CopiedWords(u, i, level)[j - i])
    decreases level - i
  {
    hide DocumentedStep, CopiedWord, Holds, OnlyFrame, Link, LinkClear, Reg, Contains;
    if i < level {
      CopiesLink(s, u, i, depth);
      CopyRound(s, u, s.regs[ESP], stk, depth);
      var next := DocumentedStep(u).value;
      CopiesLinks(s, next, stk + [CopiedWord(u)], i + 1, level, depth);
    }
  }

  lemma {:induction false} DisplayLinks(s: Cpu, i: nat, level: nat)
    requires i > 0
    ensures forall j :: i <= j < level ==> Display(Link(s, i - 1), i, level, s.operandSize16)[j - i] == Link(s, j)
    decreases level - i
  {
    hide Truncate;
    if i < level {
      TruncateAdd(Reg(s, EBP) as int - (i - 1) * SlotSize(s.operandSize16), 0 - SlotSize(s.operandSize16), s.operandSize16);
      DisplayLinks(s, i + 1, level);
    }
  }

  lemma PushKeepsEbp(s: Cpu)
    requires PushR(s, EBP).Ok?
    ensures PushR(s, EBP).value.regs[EBP] == s.regs[EBP]
  {
    hide Put, Writable, LowHalf;
  }

  lemma PushedHolds(s: Cpu, depth: nat)
    requires PushR(s, EBP).Ok? && depth > 0 && NoLap(depth, s.operandSize16)
    ensures
      var t := PushR(s, EBP).value;
      && Holds(t, s.regs[ESP], [Reg(s, EBP)]) && OnlyFrame(s, t, s.regs[ESP], depth)
  {
    hide PushR, Stored, OutsideSlots, Bump, Reg;
    HoldsNothing(s);
    SameOnlyStack(s, s, s.regs[ESP], depth);
    PushRKeeps(s, s, s.regs[ESP], [], EBP, depth);
    assert [] + [Reg(s, EBP)] == [Reg(s, EBP)];
    PushKeepsEbp(s);
    assert s.regs[EBP := s.regs[EBP]] == s.regs;
  }

  /** With the display clear of the block, the two loops push the same words exactly when every word of it holds
      its own address. */
  lemma WordsByLinks(s: Cpu, level: nat)
    requires level < 32 && DocumentedPushed(s, level).Ok? && LinksClear(s, 1, level, level + 1)
    ensures
      var t := PushR(s, EBP).value;
      CopiedWords(t, 1, level) == Display(Reg(t, EBP), 1, level, s.operandSize16) <==> SelfLinks(s, 1, level)
  {
    hide PushR, Push, Link, Reg, Holds, OnlyFrame, Contains, DocumentedLoop, CopiedWords, Display, LinksClear, SelfLinks;
    var t := PushR(s, EBP).value;
    FirstPush(s);
    PushedHolds(s, level + 1);
    CopiesLinks(s, t, [Reg(s, EBP)], 1, level, level + 1);
    DisplayLinks(s, 1, level);
    LinkWords(s, level, CopiedWords(t, 1, level), Display(Reg(t, EBP), 1, level, s.operandSize16));
  }

  lemma LinkWords(s: Cpu, level: nat, words: seq<uint32>, display: seq<uint32>)
    requires |words| == |display| == if 1 < level then level - 1 else 0
    requires forall j :: 1 <= j < level ==> Contains(s.memory, Link(s, j), SlotSize(s.operandSize16), words[j - 1])
    requires forall j :: 1 <= j < level ==> display[j - 1] == Link(s, j)
    ensures words == display <==> SelfLinks(s, 1, level)
  {
    hide Link, Mapped, Get;
    if words == display {
      forall j | 1 <= j < level
        ensures SelfLinked(s, j)
      {
        assert words[j - 1] == display[j - 1];
      }
    }
    if SelfLinks(s, 1, level) {
      forall k | 0 <= k < |words|
        ensures words[k] == display[k]
      {
        assert SelfLinked(s, k + 1);
        var j := k + 1;
        assert Contains(s.memory, Link(s, j), SlotSize(s.operandSize16), words[j - 1]) && display[j - 1] == Link(s, j);
      }
    }
  }

  /** Where the enclosing display is mapped and clear of the block that ENTER writes, ENTER leaves the documented
      memory exactly when each word of the display holds its own address, by the memory before it. */
  lemma EnterByLinks(s: Cpu, size: uint16, level: nat)
    requires level < 32 && EnterFrame(s, size, level).Ok? && LinksMapped(s, 1, level) && LinksClear(s, 1, level, level + 1)
    ensures DocumentedEnter(s, size, level).Ok?
    ensures EnterFrame(s, size, level).value.memory == DocumentedEnter(s, size, level).value.memory <==> SelfLinks(s, 1, level)
  {
    hide EnterFrame, PushR, DocumentedLoop, LinksMapped, LinksClear, SelfLinks, CopiedWords, HoldOwnAddress, Reg, Display;
    EnterCompletes(s, size, level);
    EnterAsDocumented(s, size, level);
    WordsByLinks(s, level);
    PushedFrame(s);
    WordsAreLinks(PushR(s, EBP).value, 1, level);
  }

  /** Zeros from 0 to 64, with the stack at the end. */
  ghost function Zeroed(s: Cpu): Cpu {
    s.(regs := s.regs[ESP := 64][EBP := 24], operandSize16 := false, memory := Zeros(0, 64))
  }

  /** A level-2 ENTER over a display of zeros: the manual copies the zero at EBP - 4, the emulator pushes its
      address, and its stack pointer is not the documented one either. */
  lemma DisplayFails(s: Cpu, size: uint16)
    ensures
      var t, d := EnterFrame(Zeroed(s), size, 2), DocumentedEnter(Zeroed(s), size, 2);
      && t.Ok? && d.Ok? && t.value.memory != d.value.memory && Reg(t.value, ESP) != Reg(d.value, ESP)
  {
    hide EnterFrame, DocumentedEnter, HoldOwnAddress, Get, Link, LinksMapped, LinksClear, Reg;
    var z := Zeroed(s);
    ZeroedEnters(s, size);
    ZeroLink(s);
    assert !SelfLinked(z, 1);
    EnterByLinks(z, size, 2);
    EnterAsDocumented(z, size, 2);
  }

  lemma ZeroLink(s: Cpu)
    ensures Link(Zeroed(s), 1) == 20 && Mapped(Zeroed(s).memory, 20, 4) && Get(Zeroed(s).memory, 20, 4) == 0
    ensures LinksMapped(Zeroed(s), 1, 2) && LinksClear(Zeroed(s), 1, 2, 3)
  {
    SmallWord(Zeroed(s).memory, 20, 0);
  }

  lemma ZeroedEnters(s: Cpu, size: uint16)
    ensures EnterFrame(Zeroed(s), size, 2).Ok?
  {
    hide Put;
    var z := Zeroed(s);
    var t := PushR(z, EBP).value;
    assert t.regs[ESP] == 60;
  }
}
