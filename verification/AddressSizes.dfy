/**
  Which half of a pointer register is used.  The manual (Intel SDM Volume 2) takes stack addresses from all of
  ESP in 32-bit mode, whatever the operand size, and string addresses from ESI and EDI by the address size; the
  emulator goes by the operand size for both.
*/
module AddressSizes {
  import opened Words
  import opened FlatMemory
  import opened Arithmetic
  import opened CpuState
  import opened Isa
  import opened Pointers

  // ----- The stack -----

  function DocumentedPush(s: Cpu, v: uint32): Step {
    var t := SetReg32(s, ESP, Wrap32(s.regs[ESP] as int - OperandSize(s)));
    Write(t, t.regs[ESP], OperandSize(s), v)
  }

  function DocumentedPop(s: Cpu): Result<Popped> {
    var tmp :- Read(s, s.regs[ESP], OperandSize(s));
    Ok(Popped(SetReg32(s, ESP, Wrap32(s.regs[ESP] + OperandSize(s))), tmp))
  }

  /** A small move, all cases written out. */
  lemma SmallMove(r: uint32, d: int)
    requires -4 <= d <= 4
    ensures
      var low := r % 0x1_0000 + d;
      var p, q := Bump(r, d, true) as int, r + d;
      && p == r - r % 0x1_0000 + (if low < 0 then low + 0x1_0000 else if low < 0x1_0000 then low else low - 0x1_0000)
      && p % 0x1_0000 == p - (r - r % 0x1_0000)
      && Wrap32(r + d) == if q < 0 then q + 0x1_0000_0000 else if q < 0x1_0000_0000 then q else q - 0x1_0000_0000
  {
    HalfMoves(r, d);
    LowHalfParts(r, Wrap16(r + d));
    var low := r % 0x1_0000 + d;
    assert Wrap16(low) == if low < 0 then low + 0x1_0000 else if low < 0x1_0000 then low else low - 0x1_0000;
  }

  /** PUSH with a 0x66 prefix does the documented thing whatever memory holds exactly when the upper half of ESP is
      zero and the lower does not wrap. */
  lemma PushAsDocumented(s: Cpu, v: uint32)
    requires s.operandSize16
    ensures (forall m :: Push(s.(memory := m), v) == DocumentedPush(s.(memory := m), v)) <==> 2 <= s.regs[ESP] < 0x1_0000
  {
    hide Put, Mapped, Writable, Push, Bump;
    var esp := s.regs[ESP];
    SmallMove(esp, -2);
    var p, q := Bump(esp, -2, true), Wrap32(esp as int - 2);
    forall m
      ensures Push(s.(memory := m), v) == Write(SetReg32(s.(memory := m), ESP, p), p % 0x1_0000, 2, v)
    {
      NarrowPush(s.(memory := m), v);
    }
    if !(2 <= esp < 0x1_0000) {
      var t := s.(memory := Zeros(p % 0x1_0000, 2));
      TwoFit(p % 0x1_0000, p % 0x1_0000);
      TwoFit(p % 0x1_0000, q);
      assert Push(t, v).Ok? && Push(t, v).value.regs[ESP] == p;
      assert p % 0x1_0000 != q || p != q;
      assert DocumentedPush(t, v).Ok? ==> p % 0x1_0000 == q && DocumentedPush(t, v).value.regs[ESP] == q;
      assert Push(t, v) != DocumentedPush(t, v);
    }
  }

  lemma NarrowPush(s: Cpu, v: uint32)
    requires s.operandSize16
    ensures
      var p := Bump(s.regs[ESP], -2, true);
      Push(s, v) == Write(SetReg32(s, ESP, p), p % 0x1_0000, 2, v)
  {
    hide Put, Writable;
    HalfMoves(s.regs[ESP], -2);
  }

  lemma TwoFit(a: uint32, b: uint32)
    ensures Writable(Zeros(a, 2), b, 2) <==> a == b
    ensures Mapped(Zeros(a, 2), b, 2) <==> a == b
  {
    var m := Zeros(a, 2);
    if Mapped(m, b, 2) {
      assert b in m.bytes && b + 1 in m.bytes;
    }
  }

  /** POP, likewise. */
  lemma PopAsDocumented(s: Cpu)
    requires s.operandSize16
    ensures (forall m :: Pop(s.(memory := m)) == DocumentedPop(s.(memory := m))) <==> s.regs[ESP] < 0xFFFE
  {
    hide Get, Mapped, Pop, Bump;
    var esp := s.regs[ESP];
    SmallMove(esp, 2);
    forall m
      ensures
        var t := s.(memory := m);
        Pop(t) ==
          match Read(t, esp % 0x1_0000, 2)
          case Ok(v) => Ok(Popped(SetReg32(t, ESP, Bump(esp, 2, true)), v))
          case Fault(u, cause) => Fault(u, cause)
    {
      NarrowPop(s.(memory := m));
    }
    if esp >= 0xFFFE {
      var t := s.(memory := Zeros(esp % 0x1_0000, 2));
      TwoFit(esp % 0x1_0000, esp);
      TwoFit(esp % 0x1_0000, esp % 0x1_0000);
      assert Pop(t).Ok? && Pop(t).value.cpu.regs[ESP] == Bump(esp, 2, true);
      assert DocumentedPop(t).Ok? ==> esp < 0x1_0000 && DocumentedPop(t).value.cpu.regs[ESP] == Wrap32(esp + 2);
      assert Pop(t) != DocumentedPop(t);
    }
  }

  lemma NarrowPop(s: Cpu)
    requires s.operandSize16
    ensures
      Pop(s) ==
        match Read(s, s.regs[ESP] % 0x1_0000, 2)
        case Ok(v) => Ok(Popped(SetReg32(s, ESP, Bump(s.regs[ESP], 2, true)), v))
        case Fault(u, cause) => Fault(u, cause)
  {
    hide Get, Mapped;
    HalfMoves(s.regs[ESP], 2);
  }

  // ----- The string pointers -----

  /** Where the manual points a string instruction, and where to next. */
  ghost predicate PointsAsDocumented(s: Cpu, i: RegisterIndex) {
    && Reg(s, i) == Pointer(s.regs[i], s.addressSize16)
    && SetIndex(s).regs[i] == Bump(s.regs[i], Stride(s), s.addressSize16)
  }

  /** A string instruction addresses memory and moves on as documented exactly when its two sizes are equal or the
      pointer stays below 0x10000. */
  lemma StringPointers(s: Cpu, i: RegisterIndex)
    requires i == ESI || i == EDI
    ensures PointsAsDocumented(s, i) <==>
            s.operandSize16 == s.addressSize16 || (s.regs[i] < 0x1_0000 && 0 <= s.regs[i] + Stride(s) < 0x1_0000)
  {
    hide Bump, SetIndex;
    IndexMoves(s, i);
    SmallMove(s.regs[i], Stride(s));
    assert Bump(s.regs[i], Stride(s), false) == Wrap32(s.regs[i] + Stride(s)) by {
      FullMove(s.regs[i], Stride(s));
    }
  }

  lemma IndexMoves(s: Cpu, i: RegisterIndex)
    requires i == ESI || i == EDI
    ensures SetIndex(s).regs[i] == Bump(s.regs[i], Stride(s), s.operandSize16)
  {
    hide LowHalf;
    if s.operandSize16 {
      HalfMoves(s.regs[i], Stride(s));
    }
  }

  /** STOS moves ESI and SCAS too, which the manual has only for EDI. */
  lemma SpareMove(s: Cpu)
    ensures StosW(s).Ok? ==> StosW(s).value.regs[ESI] != s.regs[ESI]
    ensures ScasW(s).Ok? ==> ScasW(s).value.regs[ESI] != s.regs[ESI]
  {
    hide Put, Get, Sub, SetIndex;
    forall t: Cpu | t.regs == s.regs && t.operandSize16 == s.operandSize16
      ensures SetIndex(t).regs[ESI] != s.regs[ESI]
    {
      IndexMoves(t, ESI);
      BumpChanges(s.regs[ESI], Stride(t), t.operandSize16);
    }
  }

  lemma BumpChanges(r: uint32, d: int, low: bool)
    requires d != 0 && -4 <= d <= 4
    ensures Bump(r, d, low) != r
  {
    hide Bump;
    SmallMove(r, d);
    FullMove(r, d);
  }

  lemma FullMove(r: uint32, d: int)
    ensures Bump(r, d, false) == Wrap32(r + d)
  {
  }
}
