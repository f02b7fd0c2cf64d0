/**
  The operand decoder against an independent reading of the instruction bytes: section 2.1.5 of the
  Intel SDM, Volume 2, Tables 2-1 to 2-3.
*/
module ModRmLaws {
  import opened Words
  import opened FlatMemory
  import opened Arithmetic
  import opened CpuState
  import opened ModRm
  import opened Isa
  import opened PrefixChains

  // ----- The reference -----

  /** A ModRM byte and what follows it. */
  type Encoding = bs: seq<uint8> | |bs| >= 2 witness [0, 0]

  function Mod(bs: Encoding): nat { bs[0] / 64 }

  function Rm(bs: Encoding): nat { bs[0] % 8 }

  function Base(bs: Encoding): nat { bs[1] % 8 }

  predicate HasSib(bs: Encoding, addr16: bool) { !addr16 && Mod(bs) != 3 && Rm(bs) == 4 }

  /** The displacement takes the place of the base register. */
  predicate DispOnly(bs: Encoding, addr16: bool) {
    Mod(bs) == 0 && if addr16 then Rm(bs) == 6 else Rm(bs) == 5 || SibWithoutBase(bs, addr16)
  }

  predicate SibWithoutBase(bs: Encoding, addr16: bool) { HasSib(bs, addr16) && Mod(bs) == 0 && Base(bs) == 5 }

  function DispSize(bs: Encoding, addr16: bool): nat {
    var word := if addr16 then 2 else 4;
    if DispOnly(bs, addr16) || Mod(bs) == 2 then word else if Mod(bs) == 1 then 1 else 0
  }

  function DispStart(bs: Encoding, addr16: bool): nat { if HasSib(bs, addr16) then 2 else 1 }

  /** ModRM, SIB and displacement. */
  function SdmLength(bs: Encoding, addr16: bool): nat { DispStart(bs, addr16) + DispSize(bs, addr16) }

  /** The displacement field, sign-extended. */
  function Displacement(bs: Encoding, addr16: bool): int
    requires |bs| >= SdmLength(bs, addr16)
  {
    var v := Le(bs[DispStart(bs, addr16)..SdmLength(bs, addr16)]);
    if v >= Pow256(DispSize(bs, addr16)) / 2 then v - Pow256(DispSize(bs, addr16)) else v
  }

  /** The registers of a 16-bit address. */
  function Registers16(rm: nat, regs: Registers): nat {
    var (bx, bp, si, di) := (regs[EBX] % 0x1_0000, regs[EBP] % 0x1_0000, regs[ESI] % 0x1_0000, regs[EDI] % 0x1_0000);
    match rm
    case 0 => bx + si
    case 1 => bx + di
    case 2 => bp + si
    case 3 => bp + di
    case 4 => si
    case 5 => di
    case 6 => bp
    case _ => bx
  }

  /** The registers of a 32-bit address. */
  function Registers32(bs: Encoding, regs: Registers): nat {
    if Rm(bs) != 4 then if DispOnly(bs, false) then 0 else regs[Rm(bs)]
    else
      var scaled := if bs[1] / 8 % 8 == 4 then 0 else regs[bs[1] / 8 % 8] as int * [1, 2, 4, 8][bs[1] / 64];
      scaled + if DispOnly(bs, false) then 0 else regs[Base(bs)] as int
  }

  function SdmAddress(bs: Encoding, addr16: bool, regs: Registers): uint32
    requires Mod(bs) != 3 && |bs| >= SdmLength(bs, addr16)
  {
    var disp := if DispSize(bs, addr16) == 0 then 0 else Displacement(bs, addr16);
    if addr16 then Wrap16((if DispOnly(bs, true) then 0 else Registers16(Rm(bs), regs)) + disp)
    else Wrap32(Registers32(bs, regs) + disp)
  }

  // ----- The decoder -----

  ghost predicate Holds(m: Memory, a: int, b: uint8) { a in m.bytes && m.bytes[a] == b }

  /** `eip` is on the ModRM byte of `bs`, which does not wrap around the address space. */
  ghost predicate Encoded(s: Cpu, bs: Encoding) {
    && s.eip + |bs| <= 0x1_0000_0000
    && forall i :: 0 <= i < |bs| ==> Holds(s.memory, s.eip + i, bs[i])
  }

  function Fields(bs: Encoding): Operand { FromBytes(bs[0], bs[1]) }

  /** The constructor finds the fields, and leaves `eip` on the ModRM byte. */
  lemma DecodeFinds(s: Cpu, bs: Encoding)
    requires Encoded(Skip(s, 1), bs)
    ensures Decode(s) == Ok(Decoded(Skip(s, 1), Fields(bs)))
    ensures Fields(bs).mod == Mod(bs) && Fields(bs).extra == bs[0] / 8 % 8 && Fields(bs).rm == Rm(bs)
  {
    var t := Skip(s, 1);
    FetchByteField(t, bs, 0);
    FetchByteField(t, bs, 1);
  }

  lemma FieldBytes(s: Cpu, bs: Encoding, i: nat, n: nat)
    requires Encoded(s, bs) && i + n <= |bs|
    ensures n > 0 ==> Wrap32(s.eip + i) == s.eip + i
    ensures Mapped(s.memory, s.eip + i, n) && Load(s.memory, s.eip + i, n) == bs[i..i + n]
  {
    FieldLoads(s.memory, s.eip, bs, i, n);
  }

  lemma FieldLoads(m: Memory, start: int, bs: seq<uint8>, i: nat, n: nat)
    requires i + n <= |bs|
    requires forall k :: 0 <= k < |bs| ==> Holds(m, start + k, bs[k])
    ensures Mapped(m, start + i, n) && Load(m, start + i, n) == bs[i..i + n]
  {
    var a := start + i;
    forall x | a <= x < a + n
      ensures x in m.bytes
    {
      assert Holds(m, start + (x - start), bs[x - start]);
    }
    var field, slice := Load(m, a, n), bs[i..i + n];
    forall k | 0 <= k < n
      ensures field[k] == slice[k]
    {
      assert Holds(m, start + (i + k), bs[i + k]);
    }
  }

  lemma FieldBound(bs: seq<uint8>)
    requires 0 < |bs| <= 4
    ensures Le(bs) < Pow256(|bs|) <= 0x1_0000_0000
  {
    LeBound(bs);
    Pow256Values();
    assert Pow256(3) == 0x100 * Pow256(2);
  }

  /** A code fetch inside the encoding reads its bytes. */
  lemma FetchField(s: Cpu, bs: Encoding, i: nat, n: nat)
    requires Encoded(s, bs) && i + n <= |bs| && 0 < n <= 4
    ensures Le(bs[i..i + n]) < Pow256(n) <= 0x1_0000_0000
    ensures ReadCode(s, i, n) == Ok(Le(bs[i..i + n]) as uint32)
  {
    hide Encoded, Mapped, Le, Pow256;
    FieldBound(bs[i..i + n]);
    FieldBytes(s, bs, i, n);
  }

  lemma FetchByteField(s: Cpu, bs: Encoding, i: nat)
    requires Encoded(s, bs) && i < |bs|
    ensures ReadCode8(s, i) == Ok(bs[i])
  {
    assert Holds(s.memory, s.eip + i, bs[i]);
    assert ByteAt(s.memory, s.eip + i, bs[i]);
    FetchByte(s, i, bs[i]);
  }

  lemma ByteValue(b: uint8)
    ensures Le([b]) == b
  {
    assert Le([b]) == b as int + 0x100 * Le([b][1..]);
  }

  /** The register part of a 16-bit address. */
  lemma Base16(s: Cpu, bs: Encoding)
    ensures (if Fields(bs).rm == 6 then Reg16(s, EBP) else RegD(s, Fields(bs))) == Wrap16(Registers16(Rm(bs), s.regs))
  {
  }

  /** The register part of a 32-bit address. */
  lemma Base32(s: Cpu, bs: Encoding)
    ensures Rm(bs) != 4 ==> RegD32(s, Fields(bs)) == Wrap32(Registers32(bs, s.regs))
    ensures Rm(bs) == 5 && Mod(bs) == 0 ==> Registers32(bs, s.regs) == 0
    ensures Rm(bs) == 4 && Mod(bs) != 3 ==> SibDisp(s, Fields(bs)) == Wrap32(Registers32(bs, s.regs))
  {
  }

  lemma Address16(s: Cpu, bs: Encoding)
    requires s.addressSize16 && Encoded(s, bs) && Mod(bs) != 3 && |bs| >= SdmLength(bs, true)
    ensures Disp16(s, Fields(bs)) == Ok(SdmAddress(bs, true, s.regs))
  {
    hide RegD, Registers16, ReadCode, ReadCode8, Reg16, Le, Encoded;
    Base16(s, bs);
    Pow256Values();
    if DispSize(bs, true) == 1 {
      FetchByteField(s, bs, 1);
      assert bs[1..2] == [bs[1]];
      ByteValue(bs[1]);
      WrapAdd(Registers16(Rm(bs), s.regs), Displacement(bs, true));
    } else if DispSize(bs, true) == 2 {
      FetchField(s, bs, 1, 2);
      WrapAdd(Registers16(Rm(bs), s.regs), Displacement(bs, true));
    }
  }

  /** The address that the 32-bit decoder computes: the SIB form without a base register loses its
      displacement, every other form is as documented. */
  lemma Address32(s: Cpu, bs: Encoding)
    requires !s.addressSize16 && Encoded(s, bs) && Mod(bs) != 3 && |bs| >= SdmLength(bs, false)
    ensures Disp32(s, Fields(bs)) == Ok(
              if SibWithoutBase(bs, false) then Wrap32(Registers32(bs, s.regs)) else SdmAddress(bs, false, s.regs))
  {
    hide RegD32, Registers32, ReadCode, ReadCode8, SibDisp, Le, Encoded;
    Base32(s, bs);
    Pow256Values();
    var i := DispStart(bs, false);
    if DispSize(bs, false) == 1 {
      FetchByteField(s, bs, i);
      assert bs[i..i + 1] == [bs[i]];
      ByteValue(bs[i]);
      WrapAdd(Registers32(bs, s.regs), Displacement(bs, false));
    } else if DispSize(bs, false) == 4 {
      FetchField(s, bs, i, 4);
      WrapAdd(Registers32(bs, s.regs), Displacement(bs, false));
    }
  }

  /** The decoder's length is the documented one exactly when the encoding is not a SIB byte that puts a
      displacement in place of the base register; then it is four bytes short. */
  lemma LengthMatches(s: Cpu, bs: Encoding)
    ensures Length(s, Fields(bs)) + (if SibWithoutBase(bs, s.addressSize16) then 4 else 0) == SdmLength(bs, s.addressSize16)
  {
  }

  /** The decoder's address is the documented one exactly when the displacement it ignores in that form
      is zero. */
  lemma AddressMatches(s: Cpu, bs: Encoding)
    requires Encoded(s, bs) && Mod(bs) != 3 && |bs| >= SdmLength(bs, s.addressSize16)
    ensures Address(s, Fields(bs)).Ok?
    ensures Address(s, Fields(bs)) == Ok(SdmAddress(bs, s.addressSize16, s.regs)) <==>
              !SibWithoutBase(bs, s.addressSize16) || Displacement(bs, s.addressSize16) == 0
  {
    hide Disp16, Disp32, Registers32, Displacement;
    if s.addressSize16 {
      Address16(s, bs);
    } else {
      Address32(s, bs);
      if SibWithoutBase(bs, false) {
        DisplacementBound(bs);
        NoMove(Registers32(bs, s.regs), Displacement(bs, false));
      }
    }
  }

  lemma DisplacementBound(bs: Encoding)
    requires |bs| >= SdmLength(bs, false) && SibWithoutBase(bs, false)
    ensures -0x8000_0000 <= Displacement(bs, false) < 0x8000_0000
  {
    Pow256Values();
    LeBound(bs[2..6]);
  }

  lemma NoMove(x: int, d: int)
    requires -0x8000_0000 <= d < 0x8000_0000
    ensures Wrap32(x) == Wrap32(x + d) <==> d == 0
  {
  }

  /** `[0x01020304]` with a SIB byte: the decoder sees the address zero and two bytes. */
  lemma SibWithoutBaseFails(s: Cpu)
    requires !s.addressSize16 && Encoded(s, [0x04, 0x25, 4, 3, 2, 1])
    ensures
      var bs: Encoding := [0x04, 0x25, 4, 3, 2, 1];
      && Address(s, Fields(bs)) == Ok(0) && Length(s, Fields(bs)) == 2
      && SdmLength(bs, false) == 6 && SdmAddress(bs, false, s.regs) == 0x0102_0304
  {
    hide Encoded, Le, Pow256;
    var bs: Encoding := [0x04, 0x25, 4, 3, 2, 1];
    Address32(s, bs);
    LengthMatches(s, bs);
    assert bs[2..6] == [4, 3, 2, 1];
    FieldValue();
    Pow256Values();
  }

  lemma FieldValue()
    ensures Le([4, 3, 2, 1]) == 0x0102_0304
  {
    var field: seq<uint8> := [4, 3, 2, 1];
    assert field[1..] == [3, 2, 1] && field[1..][1..] == [2, 1] && field[1..][1..][1..] == [1];
    ByteValue(1);
    assert Le([2, 1]) == 2 + 0x100 * Le([1]) && Le([3, 2, 1]) == 3 + 0x100 * Le([2, 1]);
  }

  // ----- What the decoder reads, and where it leaves `eip` -----

  /** The two states differ only in memory outside the ModRM block. */
  ghost predicate SameBlock(s: Cpu, s': Cpu, m: Operand) {
    && s' == s.(memory := s'.memory) && s.eip + Length(s, m) <= 0x1_0000_0000
    && Same(s.memory, s'.memory, s.eip, Length(s, m))
  }

  lemma SameField(s: Cpu, s': Cpu, m: Operand, i: nat, n: nat)
    requires SameBlock(s, s', m) && 0 < n <= 4 && i + n <= Length(s, m)
    ensures ReadCode(s, i, n).Ok? <==> ReadCode(s', i, n).Ok?
    ensures ReadCode(s, i, n).Ok? ==> ReadCode(s, i, n).value == ReadCode(s', i, n).value
    ensures n == 1 ==> (ReadCode8(s, i).Ok? <==> ReadCode8(s', i).Ok?)
    ensures n == 1 && ReadCode8(s, i).Ok? ==> ReadCode8(s, i).value == ReadCode8(s', i).value
  {
    hide Length, Get;
    var a := s.eip + i;
    assert Same(s.memory, s'.memory, a, n);
    assert Mapped(s.memory, a, n) <==> Mapped(s'.memory, a, n);
    if Mapped(s.memory, a, n) {
      SameGet(s.memory, s'.memory, a, n);
    }
  }

  /** Every byte that the address depends on, displacement included, lies inside the block that `Length`
      measures. */
  lemma AddressReadsBlock(s: Cpu, s': Cpu, m: Operand)
    requires SameBlock(s, s', m) && m.mod < 4
    ensures Address(s, m).Ok? <==> Address(s', m).Ok?
    ensures Address(s, m).Ok? ==> Address(s, m).value == Address(s', m).value
  {
    hide ReadCode, ReadCode8, RegD, RegD32, SibDisp, Reg16, SameBlock;
    SameRegisters(s, s', m);
    var n := Length(s, m);
    if m.mod != 3 {
      var i := if !s.addressSize16 && m.rm == 4 then 2 else 1;
      if n > i {
        SameField(s, s', m, i, n - i);
      }
    }
  }

  lemma SameRegisters(s: Cpu, s': Cpu, m: Operand)
    requires SameBlock(s, s', m)
    ensures s'.addressSize16 == s.addressSize16
    ensures RegD(s', m) == RegD(s, m) && RegD32(s', m) == RegD32(s, m) && SibDisp(s', m) == SibDisp(s, m)
    ensures Reg16(s', EBP) == Reg16(s, EBP)
  {
    hide Length;
  }

  /** A handler body that leaves `eip` `d` bytes further. */
  ghost predicate Advances(s: Cpu, r: Step, d: nat) {
    r.Ok? ==> r.value.eip == Wrap32(s.eip + d) && r.value.addressSize16 == s.addressSize16
  }

  lemma WriteAdvances(s: Cpu, m: Operand, v: uint32)
    ensures Advances(s, RmWrite(s, m, v), 0)
  {
    hide Address, Put, Writable;
  }

  lemma AluAdvances(s: Cpu, m: Operand, op: AluOp)
    ensures Advances(s, AluRRmBody(s, m, op), 0)
  {
    hide RmRead, Alu;
  }

  lemma ImmediateAdvances(s: Cpu, m: Operand, op: AluOp, immSize: nat)
    requires immSize in {1, 2, 4}
    ensures Advances(s, AluRmImm(s, m, op, immSize), immSize)
  {
    hide RmRead, RmWrite, RmImmediate, Alu, SignExtend;
    forall f: Flags, v: uint32
      ensures Advances(s.(freg := f), RmWrite(s.(freg := f), m, v), 0)
    {
      WriteAdvances(s.(freg := f), m, v);
    }
  }

  lemma GroupAdvances(s: Cpu, m: Operand, immSize: nat)
    requires immSize in {1, 2, 4}
    ensures Advances(s, AluGroupBody(s, m, immSize), immSize)
  {
    hide AluRmImm;
    forall op: AluOp
      ensures Advances(s, AluRmImm(s, m, op, immSize), immSize)
    {
      ImmediateAdvances(s, m, op, immSize);
    }
  }

  lemma MulDivAdvances(s: Cpu, m: Operand)
    ensures Advances(s, GroupF7Body(s, m), 0)
  {
    hide RmRead, Imul, Idiv;
  }

  lemma CountAdvances(s: Cpu, m: Operand)
    requires m.extra == 0 || m.extra == 1 || m.extra == 6
    ensures Advances(s, GroupFFBody(s, m), 0)
  {
    hide RmRead, RmWrite, Add, Sub, Put, Writable;
    forall f: Flags, v: uint32
      ensures Advances(s.(freg := f), RmWrite(s.(freg := f), m, v), 0)
    {
      WriteAdvances(s.(freg := f), m, v);
    }
  }

  /** The instructions whose ModRM operand the destructor steps over. */
  predicate StepsOver(op: uint8, m: Operand) {
    op in {0x03, 0x13, 0x2B, 0x3B, 0x81, 0x83, 0xF7} || (op == 0xFF && m.extra in {0, 1, 6})
  }

  function ImmediateSize(s: Cpu): nat {
    if s.opbyte == 0x81 then OperandSize(s) else if s.opbyte == 0x83 then 1 else 0
  }

  /** After the block and the immediate, `eip` is on the last byte. */
  lemma LeaveAdvances(s: Cpu, t: Cpu, m: Operand, r: Step, d: nat)
    requires t == Skip(s, 1) && Advances(t, r, d) && Leave(r, m).Ok?
    ensures Leave(r, m).value.eip == Wrap32(s.eip + Length(s, m) + d)
  {
    var x, n := s.eip as int, Length(s, m);
    assert Length(r.value, m) == n;
    WrapAdd(x + 1, d);
    WrapAdd(x + 1 + d, n - 1);
  }

  /** The handlers in terms of their bodies. */
  ghost function Body(s: Cpu, m: Operand, op: uint8): Step {
    match op
    case 0x03 => AluRRmBody(s, m, AddOp)
    case 0x13 => AluRRmBody(s, m, AdcOp)
    case 0x2B => AluRRmBody(s, m, SubOp)
    case 0x3B => AluRRmBody(s, m, CmpOp)
    case 0x81 => AluGroupBody(s, m, OperandSize(s))
    case 0x83 => AluGroupBody(s, m, 1)
    case 0xF7 => GroupF7Body(s, m)
    case _ => GroupFFBody(s, m)
  }

  lemma BasicBody(s: Cpu, m: Operand)
    requires Decode(s) == Ok(Decoded(Skip(s, 1), m)) && StepsOver(s.opbyte, m)
    ensures Basic(s) == Leave(Body(Skip(s, 1), m, s.opbyte), m)
  {
    hide AluRRmBody, AluGroupBody, GroupF7Body, GroupFFBody, Decode, Leave;
  }

  lemma BodyAdvances(s: Cpu, m: Operand)
    requires StepsOver(s.opbyte, m)
    ensures Advances(Skip(s, 1), Body(Skip(s, 1), m, s.opbyte), ImmediateSize(s))
  {
    hide AluRRmBody, AluGroupBody, GroupF7Body, GroupFFBody, Advances;
    var t := Skip(s, 1);
    AluAdvances(t, m, AddOp);
    AluAdvances(t, m, AdcOp);
    AluAdvances(t, m, SubOp);
    AluAdvances(t, m, CmpOp);
    GroupAdvances(t, m, 1);
    GroupAdvances(t, m, OperandSize(t));
    MulDivAdvances(t, m);
    if s.opbyte == 0xFF {
      CountAdvances(t, m);
    }
  }

  /** The next `eip` is the start, plus the prefixes, the opcode, the documented ModRM length and the
      immediate; after the SIB form without a base it is four bytes short, in the displacement. */
  lemma NextInstruction(s: Cpu, ps: seq<uint8>, op: uint8, bs: Encoding)
    requires Prefixed(s, ps, op) && Encoded(Skip(Started(s, ps, op), 1), bs) && StepsOver(op, Fields(bs))
    requires Cycle(s).Ok?
    ensures
      var t := Started(s, ps, op);
      var short := if SibWithoutBase(bs, t.addressSize16) then 4 else 0;
      Cycle(s).value.eip == Wrap32(s.eip + |ps| + 1 + SdmLength(bs, t.addressSize16) - short + ImmediateSize(t))
  {
    hide Basic, TwoByte, Decode, Length, Body, Advances, Fields, Cycle;
    var t, m := Started(s, ps, op), Fields(bs);
    PrefixedCycle(s, ps, op);
    DecodeFinds(t, bs);
    BasicBody(t, m);
    BodyAdvances(t, m);
    LeaveAdvances(t, Skip(t, 1), m, Body(Skip(t, 1), m, op), ImmediateSize(t));
    LengthMatches(t, bs);
    var x, n, d := s.eip + |ps|, Length(t, m), ImmediateSize(t);
    WrapAdd(x, n + d);
    WrapAdd(x + n + d, 1);
  }
}
