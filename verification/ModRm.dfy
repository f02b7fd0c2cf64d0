/** The ModRM operand decoder: addresses, lengths, and operand access. */
module ModRm {
  import opened Words
  import opened CpuState

  /** The fields of the ModRM byte, and of the byte after it read as a SIB byte. */
  datatype Operand = Operand(mod: nat, extra: RegisterIndex, rm: RegisterIndex, scale: nat, index: RegisterIndex, base: RegisterIndex)

  function FromBytes(modrm: uint8, sib: uint8): Operand {
    Operand(modrm / 64, modrm / 8 % 8, modrm % 8, sib / 64, sib / 8 % 8, sib % 8)
  }

  /** What the C++ constructor leaves: the operand, and `eip` on the ModRM byte. */
  datatype Decoded = Decoded(cpu: Cpu, rm: Operand)

  /** The byte after the ModRM byte is always fetched, needed or not. */
  function Decode(s: Cpu): Result<Decoded> {
    var t := Skip(s, 1);
    var modrm :- ReadCode8(t, 0);
    var sib :- ReadCode8(t, 1);
    Ok(Decoded(t, FromBytes(modrm, sib)))
  }

  /** The size of the ModRM block: the byte itself, a SIB byte and a displacement. */
  function Length(s: Cpu, m: Operand): nat {
    if s.addressSize16 then
      if m.mod == 0 && m.rm == 6 then 3
      else if m.mod == 1 then 2
      else if m.mod == 2 then 3
      else 1
    else
      if m.mod == 0 && m.rm == 5 then 5
      else if m.mod == 3 then 1
      else
        1 + (if m.rm == 4 then 1 else 0) + (if m.mod == 1 then 1 else if m.mod == 2 then 4 else 0)
  }

  /** The C++ destructor moves `eip` to the last byte of the block, on exceptions too. */
  function Leave(r: Step, m: Operand): Step {
    match r
    case Ok(t) => Ok(Skip(t, Length(t, m) - 1))
    case Fault(t, cause) => Fault(Skip(t, Length(t, m) - 1), cause)
  }

  // ----- Addresses -----

  function RegD(s: Cpu, m: Operand): uint16 {
    match m.rm
    case 0 => Wrap16(Reg16(s, EBX) + Reg16(s, ESI))
    case 1 => Wrap16(Reg16(s, EBX) + Reg16(s, EDI))
    case 2 => Wrap16(Reg16(s, EBP) + Reg16(s, ESI))
    case 3 => Wrap16(Reg16(s, EBP) + Reg16(s, EDI))
    case 4 => Reg16(s, ESI)
    case 5 => Reg16(s, EDI)
    case 6 => 0
    case _ => Reg16(s, EBX)
  }

  function Disp16(s: Cpu, m: Operand): Result<uint16> {
    var reg := if m.rm == 6 then Reg16(s, EBP) else RegD(s, m);
    match m.mod
    case 0 =>
      if m.rm == 6 then
        var d :- ReadCode(s, 1, 2);
        Ok(Wrap16(d))
      else Ok(reg)
    case 1 =>
      var d :- ReadCode8(s, 1);
      Ok(Wrap16(reg + SignExtend(d, 0x100)))
    case 2 =>
      var d :- ReadCode(s, 1, 2);
      Ok(Wrap16(reg + SignExtend(d, 0x1_0000)))
    case _ => Ok(0)
  }

  function RegD32(s: Cpu, m: Operand): uint32 {
    if m.rm == 4 then 0
    else if m.rm == 5 && m.mod == 0 then 0
    else s.regs[m.rm]
  }

  function Multiplier(scale: nat): nat {
    match scale
    case 1 => 2
    case 2 => 4
    case 3 => 8
    case _ => 1
  }

  function SibDisp(s: Cpu, m: Operand): uint32 {
    var regindex := if m.index == 4 then 0 else s.regs[m.index] as int;
    var regbase := if m.base == 5 && m.mod == 0 then 0 else s.regs[m.base] as int;
    Wrap32(regindex * Multiplier(m.scale) + regbase)
  }

  function Disp32(s: Cpu, m: Operand): Result<uint32> {
    match m.mod
    case 0 =>
      if m.rm == 5 then ReadCode(s, 1, 4)
      else if m.rm == 4 then Ok(SibDisp(s, m))
      else Ok(RegD32(s, m))
    case 1 =>
      if m.rm == 4 then
        var d :- ReadCode8(s, 2);
        Ok(Wrap32(SibDisp(s, m) + SignExtend(d, 0x100)))
      else
        var d :- ReadCode8(s, 1);
        Ok(Wrap32(RegD32(s, m) + SignExtend(d, 0x100)))
    case 2 =>
      if m.rm == 4 then
        var d :- ReadCode(s, 2, 4);
        Ok(Wrap32(SibDisp(s, m) + SignExtend(d, 0x1_0000_0000)))
      else
        var d :- ReadCode(s, 1, 4);
        Ok(Wrap32(RegD32(s, m) + SignExtend(d, 0x1_0000_0000)))
    case _ => Ok(0)
  }

  /** The effective address; mod 3 names a register instead. */
  function Address(s: Cpu, m: Operand): Result<uint32> {
    if s.addressSize16 then
      var a :- Disp16(s, m);
      Ok(a)
    else Disp32(s, m)
  }

  // ----- Operand access -----

  function RmRead(s: Cpu, m: Operand): Result<uint32> {
    if m.mod == 3 then Ok(Reg(s, m.rm))
    else
      var a :- Address(s, m);
      ReadW(s, a)
  }

  function RmWrite(s: Cpu, m: Operand, v: uint32): Step {
    if m.mod == 3 then Ok(SetReg(s, m.rm, v))
    else
      var a :- Address(s, m);
      WriteW(s, a, v)
  }

  /** The immediate after the ModRM block. */
  function RmImmediate(s: Cpu, m: Operand, n: nat): Result<uint32>
    requires n <= 4
  {
    ReadCode(s, Length(s, m), n)
  }
}
