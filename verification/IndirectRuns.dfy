/**
  Where JMP r/m and CALL r/m go, with any size prefixes.  CALL pushes the return address before it reads its
  operand, so an operand that depends on ESP or overlaps the pushed word is not the one that was there before.
*/
module IndirectRuns {
  import opened Words
  import opened FlatMemory
  import opened Arithmetic
  import opened CpuState
  import opened ModRm
  import opened Isa
  import opened PrefixChains
  import opened Pointers
  import opened StackRuns
  import opened Instructions
  import ModRmLaws

  const GROUP_FF := 0xFF
  const CALL := 2
  const JMP := 4

  /** The state in which the operand is decoded. */
  ghost function AtOperand(s: Cpu, ps: seq<uint8>): Cpu { Skip(Started(s, ps, GROUP_FF), 1) }

  /** An indirect CALL or JMP, by `extra`, with the operand `m` is at `s`. */
  ghost predicate Indirect(s: Cpu, ps: seq<uint8>, extra: RegisterIndex, m: Operand) {
    && Prefixed(s, ps, GROUP_FF)
    && Decode(Started(s, ps, GROUP_FF)) == Ok(Decoded(AtOperand(s, ps), m)) && m.extra == extra
  }

  lemma GroupRuns(s: Cpu, ps: seq<uint8>, extra: RegisterIndex, m: Operand)
    requires Indirect(s, ps, extra, m)
    ensures extra == JMP ==> Handler(Started(s, ps, GROUP_FF)) == JmpRm(AtOperand(s, ps), m)
    ensures extra == CALL ==> Handler(Started(s, ps, GROUP_FF)) == CallRm(AtOperand(s, ps), m)
  {
    hide Decode, RmRead, Push, Length, Basic, Prefixed;
    GroupHandler(Started(s, ps, GROUP_FF));
  }

  /** JMP r/m goes to its operand. */
  lemma JumpGoes(s: Cpu, ps: seq<uint8>, m: Operand)
    requires Indirect(s, ps, JMP, m)
    ensures Cycle(s).Ok? <==> RmRead(AtOperand(s, ps), m).Ok?
    ensures Cycle(s).Ok? ==>
              && Cycle(s).value.eip == RmRead(AtOperand(s, ps), m).value
              && Cycle(s).value.regs == s.regs && Cycle(s).value.freg == s.freg && Cycle(s).value.memory == s.memory
  {
    hide Cycle, Decode, RmRead, Handler, Prefixed;
    PrefixedCycle(s, ps, GROUP_FF);
    GroupRuns(s, ps, JMP, m);
    if RmRead(AtOperand(s, ps), m).Ok? {
      WrapAdd(RmRead(AtOperand(s, ps), m).value as int - 1, 1);
    }
  }

  // ----- CALL r/m -----

  ghost function ReturnAddress(s: Cpu, ps: seq<uint8>, m: Operand): uint32 {
    var t := AtOperand(s, ps);
    Wrap32(t.eip + Length(t, m))
  }

  /** The state after the push, in which CALL reads its operand. */
  ghost function AfterPush(s: Cpu, ps: seq<uint8>, m: Operand): Step {
    Push(AtOperand(s, ps), ReturnAddress(s, ps, m))
  }

  /** CALL r/m goes to what its operand is after the push. */
  lemma CallGoes(s: Cpu, ps: seq<uint8>, m: Operand)
    requires Indirect(s, ps, CALL, m)
    ensures Cycle(s).Ok? <==> AfterPush(s, ps, m).Ok? && RmRead(AfterPush(s, ps, m).value, m).Ok?
    ensures Cycle(s).Ok? ==>
              var p, u := AfterPush(s, ps, m).value, Cycle(s).value;
              RmRead(p, m) == Ok(u.eip) && u.regs == p.regs && u.memory == p.memory && u.freg == p.freg
  {
    hide Cycle, Decode, RmRead, Handler, Prefixed, Push, Length, AtOperand;
    PrefixedCycle(s, ps, GROUP_FF);
    GroupRuns(s, ps, CALL, m);
    if Cycle(s).Ok? {
      WrapAdd(RmRead(AfterPush(s, ps, m).value, m).value as int - 1, 1);
    }
  }

  /** The address of the pushed word. */
  ghost function PushSlot(s: Cpu, ps: seq<uint8>): uint32 { Slot(s.regs[ESP], 1, Narrow(ps)) }

  ghost predicate OffSlot(s: Cpu, ps: seq<uint8>, a: int, n: nat) {
    a + n <= PushSlot(s, ps) || PushSlot(s, ps) + Size(ps) <= a
  }

  /** ESP is the base of the address; no 16-bit address uses it. */
  predicate UsesEsp(ps: seq<uint8>, m: Operand) { ADDRESS_SIZE !in ps && m.mod != 3 && m.rm == 4 && m.base == ESP }

  /** The pushed word leaves the bytes of the instruction alone. */
  ghost predicate CodeOffSlot(s: Cpu, ps: seq<uint8>, m: Operand) {
    var t := AtOperand(s, ps);
    t.eip + Length(t, m) <= 0x1_0000_0000 && OffSlot(s, ps, t.eip, Length(t, m))
  }

  /** How far the push moves the stack pointer. */
  ghost function Drop(s: Cpu, ps: seq<uint8>): int {
    Bump(s.regs[ESP], 0 - Size(ps), Narrow(ps)) as int - s.regs[ESP] as int
  }

  /** `t` with ESP moved by `d`. */
  ghost function Lowered(t: Cpu, d: int): Cpu { SetReg32(t, ESP, Wrap32(t.regs[ESP] + d)) }

  /** Memory after the push. */
  ghost function WithReturn(s: Cpu, ps: seq<uint8>, m: Operand): Memory
    requires Writable(s.memory, PushSlot(s, ps), Size(ps))
  {
    Put(s.memory, PushSlot(s, ps), Size(ps), ReturnAddress(s, ps, m))
  }

  lemma PushedState(s: Cpu, ps: seq<uint8>, m: Operand)
    requires Flat(s) && AfterPush(s, ps, m).Ok?
    ensures Writable(s.memory, PushSlot(s, ps), Size(ps))
    ensures
      AfterPush(s, ps, m).value == Lowered(AtOperand(s, ps), Drop(s, ps)).(memory := WithReturn(s, ps, m))
  {
    hide Put, Writable, Length, Push, Bump, Pointer;
    PushMoves(AtOperand(s, ps), ReturnAddress(s, ps, m));
  }

  /** The stack pointer enters an address only as the base of a SIB byte. */
  lemma LoweredAddress(t: Cpu, m: Operand, d: int)
    requires m.mod < 3 && Address(t, m).Ok?
    ensures
      Address(Lowered(t, d), m) ==
      Ok(if !t.addressSize16 && m.rm == 4 && m.base == ESP then Wrap32(Address(t, m).value + d) else Address(t, m).value)
  {
    hide Disp16, Disp32;
    if t.addressSize16 {
      LoweredDisp16(t, m, d);
    } else {
      LoweredDisp32(t, m, d);
    }
  }

  lemma LoweredDisp16(t: Cpu, m: Operand, d: int)
    requires Disp16(t, m).Ok?
    ensures Disp16(Lowered(t, d), m) == Disp16(t, m)
  {
    hide ReadCode, ReadCode8, RegD, Reg16, SignExtend, Wrap16;
    SameFetches(t, Lowered(t, d));
    SameHalves(t, m, d);
  }

  /** No 16-bit address looks at the stack pointer. */
  lemma SameHalves(t: Cpu, m: Operand, d: int)
    ensures RegD(Lowered(t, d), m) == RegD(t, m) && Reg16(Lowered(t, d), EBP) == Reg16(t, EBP)
  {
    hide Wrap32;
  }

  lemma LoweredDisp32(t: Cpu, m: Operand, d: int)
    requires m.mod < 3 && Disp32(t, m).Ok?
    ensures
      Disp32(Lowered(t, d), m) ==
      Ok(if m.rm == 4 && m.base == ESP then Wrap32(Disp32(t, m).value + d) else Disp32(t, m).value)
  {
    hide ReadCode, ReadCode8, SibDisp, RegD32;
    LoweredParts(t, m, d);
    SameFetches(t, Lowered(t, d));
    var sib := SibDisp(t, m) as int;
    if m.rm == 4 && m.base == ESP && m.mod == 1 {
      var disp := SignExtend(ReadCode8(t, 2).value, 0x100);
      WrapAdd(sib + d, disp);
      WrapAdd(sib + disp, d);
    } else if m.rm == 4 && m.base == ESP && m.mod == 2 {
      var disp := SignExtend(ReadCode(t, 2, 4).value, 0x1_0000_0000);
      WrapAdd(sib + d, disp);
      WrapAdd(sib + disp, d);
    }
  }

  lemma LoweredParts(t: Cpu, m: Operand, d: int)
    requires m.mod < 3
    ensures RegD32(Lowered(t, d), m) == RegD32(t, m)
    ensures m.rm == 4 ==>
              SibDisp(Lowered(t, d), m) == if m.base == ESP then Wrap32(SibDisp(t, m) + d) else SibDisp(t, m)
  {
    if m.rm == 4 && m.base == ESP {
      var scaled := (if m.index == 4 then 0 else t.regs[m.index] as int) * Multiplier(m.scale);
      var esp := t.regs[ESP] as int;
      WrapAdd(scaled + esp, d);
      WrapAdd(esp + d, scaled);
    }
  }

  /** Fetches do not look at the registers. */
  lemma SameFetches(t: Cpu, u: Cpu)
    requires u == t.(regs := u.regs)
    ensures forall i, n: nat | n <= 4 :: ReadCode(t, i, n).Ok? ==> ReadCode(u, i, n) == ReadCode(t, i, n)
    ensures forall i :: ReadCode8(t, i).Ok? ==> ReadCode8(u, i) == ReadCode8(t, i)
  {
    hide Get, Mapped;
  }

  /** CALL of a register goes to the register exactly when it is not ESP, which has moved. */
  lemma CallOfRegister(s: Cpu, ps: seq<uint8>, m: Operand)
    requires Indirect(s, ps, CALL, m) && m.mod == 3 && Cycle(s).Ok?
    ensures Cycle(s).value.eip == Pointer(s.regs[m.rm], Narrow(ps)) <==> m.rm != ESP
  {
    hide Cycle, Length, Put, Writable, Decode, AfterPush, Bump, Indirect, Truncate, Slot;
    IndirectParts(s, ps, CALL, m);
    CallGoes(s, ps, m);
    PushedState(s, ps, m);
    BumpMoves(s.regs[ESP], Narrow(ps));
  }

  /** A push moves the stack pointer. */
  lemma BumpMoves(r: uint32, low: bool)
    ensures Pointer(Bump(r, 0 - SlotSize(low), low), low) != Pointer(r, low)
  {
    hide Bump, Pointer;
    PointerBump(r, 0 - SlotSize(low), low);
    PointerFits(r, low);
  }

  lemma PointerFits(r: uint32, low: bool)
    ensures Pointer(r, low) < Modulus(low)
  {
  }

  /** The address that CALL reads its target from: the documented one, or as much below as the push has moved ESP
      when that is the base. */
  ghost function TargetAddress(s: Cpu, ps: seq<uint8>, m: Operand): uint32
    requires Address(AtOperand(s, ps), m).Ok?
  {
    var a := Address(AtOperand(s, ps), m).value;
    if UsesEsp(ps, m) then Wrap32(a + Drop(s, ps)) else a
  }

  lemma PushedAddress(s: Cpu, ps: seq<uint8>, m: Operand)
    requires Flat(s) && m.mod < 3 && AfterPush(s, ps, m).Ok? && Address(AtOperand(s, ps), m).Ok? && CodeOffSlot(s, ps, m)
    ensures Address(AfterPush(s, ps, m).value, m) == Ok(TargetAddress(s, ps, m))
  {
    hide Address, Put, Writable, AfterPush, Length, Drop, Slot;
    var t, p := AtOperand(s, ps), AfterPush(s, ps, m).value;
    PushedState(s, ps, m);
    LoweredAddress(t, m, Drop(s, ps));
    var u := Lowered(t, Drop(s, ps));
    SameLength(t, m, Drop(s, ps));
    forall x | u.eip <= x < u.eip + Length(u, m)
      ensures (x in s.memory.bytes <==> x in p.memory.bytes) && (x in s.memory.bytes ==> s.memory.bytes[x] == p.memory.bytes[x])
    {
      assert x in s.memory.bytes.Keys <==> x in p.memory.bytes.Keys;
    }
    ModRmLaws.AddressReadsBlock(u, p, m);
  }

  lemma SameLength(t: Cpu, m: Operand, d: int)
    ensures Length(Lowered(t, d), m) == Length(t, m)
  {
  }

  lemma IndirectParts(s: Cpu, ps: seq<uint8>, extra: RegisterIndex, m: Operand)
    requires Indirect(s, ps, extra, m)
    ensures Flat(s)
  {
    hide Decode, CodeAt;
  }

  lemma ReadAtAddress(s: Cpu, ps: seq<uint8>, m: Operand)
    requires Flat(s) && m.mod < 3 && AfterPush(s, ps, m).Ok? && RmRead(AfterPush(s, ps, m).value, m).Ok?
    ensures
      var p := AfterPush(s, ps, m).value;
      && Address(p, m).Ok? && Mapped(p.memory, Address(p, m).value, Size(ps))
      && RmRead(p, m) == Ok(Get(p.memory, Address(p, m).value, Size(ps)))
  {
    hide Address, Get, Mapped, Put, Writable, Length;
  }

  /** CALL r/m through memory goes to the documented target, the word at the address that the operand has before
      the push, exactly when the word at the address that it has after the push has the same bytes by then.  With
      the code clear of the pushed word, the later address is the earlier one unless ESP is the base, and as far
      below it then as ESP has moved. */
  lemma CallOfMemory(s: Cpu, ps: seq<uint8>, m: Operand)
    requires Indirect(s, ps, CALL, m) && m.mod < 3 && Cycle(s).Ok? && Address(AtOperand(s, ps), m).Ok?
    ensures Writable(s.memory, PushSlot(s, ps), Size(ps))
    ensures AfterPush(s, ps, m).Ok? && Address(AfterPush(s, ps, m).value, m).Ok?
    ensures
      var a, b, n := Address(AtOperand(s, ps), m).value, Address(AfterPush(s, ps, m).value, m).value, Size(ps);
      && (Mapped(s.memory, a, n) && Cycle(s).value.eip == Get(s.memory, a, n)
          <==> SameBytes(WithReturn(s, ps, m), b, s.memory, a, n))
      && (CodeOffSlot(s, ps, m) ==> b == TargetAddress(s, ps, m))
  {
    hide Cycle, Address, AfterPush, Get, CodeOffSlot, Writable, Mapped, Indirect, Load, WithReturn, Slot;
    IndirectParts(s, ps, CALL, m);
    var a := Address(AtOperand(s, ps), m).value;
    CallGoes(s, ps, m);
    PushedState(s, ps, m);
    ReadAtAddress(s, ps, m);
    if CodeOffSlot(s, ps, m) {
      PushedAddress(s, ps, m);
    }
    var b := Address(AfterPush(s, ps, m).value, m).value;
    if Mapped(s.memory, a, Size(ps)) {
      SameNumbers(WithReturn(s, ps, m), b, s.memory, a, Size(ps));
    }
  }

  /** A word that the pushed one does not overlap is as before; the word on top of the stack is the return
      address itself. */
  lemma CallOfMemoryGoes(s: Cpu, ps: seq<uint8>, m: Operand)
    requires Indirect(s, ps, CALL, m) && m.mod < 3 && Cycle(s).Ok?
    requires Address(AtOperand(s, ps), m).Ok? && CodeOffSlot(s, ps, m)
    ensures
      var a, n, u := TargetAddress(s, ps, m), Size(ps), Cycle(s).value;
      && (OffSlot(s, ps, a, n) ==> Mapped(s.memory, a, n) && u.eip == Get(s.memory, a, n))
      && (a == PushSlot(s, ps) ==> u.eip == Truncate(ReturnAddress(s, ps, m), Narrow(ps)))
  {
    hide Cycle, Address, AfterPush, Put, Get, Indirect, CodeOffSlot, TargetAddress, ReturnAddress, Slot, Writable;
    IndirectParts(s, ps, CALL, m);
    var a, n, ret := TargetAddress(s, ps, m), Size(ps), ReturnAddress(s, ps, m);
    CallGoes(s, ps, m);
    PushedState(s, ps, m);
    ReadAtAddress(s, ps, m);
    PushedAddress(s, ps, m);
    assert forall x :: x in s.memory.bytes.Keys <==> x in WithReturn(s, ps, m).bytes.Keys;
    if OffSlot(s, ps, a, n) {
      GetPutOther(s.memory, PushSlot(s, ps), n, ret, a, n);
    }
    if a == PushSlot(s, ps) {
      SlotValue(s.memory, a, ret, Narrow(ps));
    }
  }

  // ----- Failing inputs -----

  function Image(modrm: uint8, sib: uint8, a: int): uint8 {
    if a == 0 then GROUP_FF else if a == 1 then modrm else if a == 2 then sib else 0
  }

  /** A group FF instruction at 0 in front of zeros, with ESP at 32. */
  ghost function Example(s: Cpu, modrm: uint8, sib: uint8): Cpu {
    s.(regs := [0, 0, 0, 0, 32, 0, 0, 0], eip := 0, operandSize16 := false, addressSize16 := false,
       memory := Memory(map x: int | 0 <= x < 40 :: Image(modrm, sib, x), {}))
  }

  lemma ExampleIndirect(s: Cpu, modrm: uint8, sib: uint8)
    requires modrm / 8 % 8 == CALL
    ensures Indirect(Example(s, modrm, sib), [], CALL, FromBytes(modrm, sib))
  {
    hide Get, FromBytes;
    var e := Example(s, modrm, sib);
    OneByte(e.memory, 1);
    OneByte(e.memory, 2);
    ExtraField(modrm, sib);
    ExamplePrefixed(e);
  }

  lemma ExamplePrefixed(e: Cpu)
    requires Flat(e) && e.eip == 0 && 0 in e.memory.bytes && e.memory.bytes[0] == GROUP_FF
    ensures Prefixed(e, [], GROUP_FF)
  {
    var code := [] + [GROUP_FF];
    assert |code| == 1 && code[0] == GROUP_FF;
    assert ByteAt(e.memory, 0 + 0, code[0]);
  }

  lemma ExtraField(modrm: uint8, sib: uint8)
    ensures FromBytes(modrm, sib).extra == modrm / 8 % 8
  {
  }

  /** CALL ESP goes four bytes below the address in ESP. */
  lemma CallOfStackPointerFails(s: Cpu)
    ensures
      var e := Example(s, 0xD4, 0);
      Cycle(e).Ok? && Cycle(e).value.eip == 28 && e.regs[ESP] == 32
  {
    hide Cycle, Put, Indirect, Image;
    var e, m := Example(s, 0xD4, 0), FromBytes(0xD4, 0);
    ExampleIndirect(s, 0xD4, 0);
    CallGoes(e, [], m);
  }

  lemma TopOfStackReads(e: Cpu, m: Operand)
    requires e.regs[ESP] == 32 && e.eip == 0 && Flat(e) && e.memory.rom == {} && m == Operand(0, CALL, 4, 0, 4, ESP)
    requires forall x :: 0 <= x < 40 ==> x in e.memory.bytes
    ensures AfterPush(e, [], m).Ok? && RmRead(AfterPush(e, [], m).value, m).Ok? && CodeOffSlot(e, [], m)
    ensures Address(AtOperand(e, []), m) == Ok(32) && TargetAddress(e, [], m) == PushSlot(e, [])
    ensures ReturnAddress(e, [], m) == 3
  {
    hide Put, Get;
  }

  /** CALL [ESP] goes to the instruction after it instead of the word on top of the stack, a zero. */
  lemma CallOfTopOfStackFails(s: Cpu)
    ensures
      var e := Example(s, 0x14, 0x24);
      Cycle(e).Ok? && Cycle(e).value.eip == 3 && Mapped(e.memory, 32, 4) && Get(e.memory, 32, 4) == 0
  {
    hide Cycle, Indirect, Get, AfterPush, RmRead, Address, CodeOffSlot, TargetAddress, PushSlot, ReturnAddress;
    var e, m := Example(s, 0x14, 0x24), FromBytes(0x14, 0x24);
    ExampleIndirect(s, 0x14, 0x24);
    CallGoes(e, [], m);
    SmallWord(e.memory, 32, 0);
    TopOfStackReads(e, m);
    CallOfMemoryGoes(e, [], m);
  }
}
