/** Pointer registers that advance in whole elements, at 16 or 32 bits, wrapping around. */
module Pointers {
  import opened Words
  import opened Arithmetic
  import opened CpuState

  /** The address that a pointer register holds. */
  function Pointer(r: uint32, low: bool): uint32 { if low then r % 0x1_0000 else r }

  /** The register after its pointer moved by `d`; a 16-bit move leaves the upper half alone. */
  function Bump(r: uint32, d: int, low: bool): uint32 {
    if low then LowHalf(r, Wrap16(r + d)) else Wrap32(r + d)
  }

  /** A register that had `r` after `v` was assigned to it at the operand size. */
  function Assigned(r: uint32, v: uint32, low: bool): uint32 {
    if low then r / 0x1_0000 * 0x1_0000 + v % 0x1_0000 else v
  }

  /** A register assignment at the operand size. */
  lemma SetRegAssigns(t: Cpu, i: RegisterIndex, v: uint32)
    ensures SetReg(t, i, v) == t.(regs := t.regs[i := Assigned(t.regs[i], v, t.operandSize16)])
  {
  }

  lemma BumpZero(r: uint32, low: bool)
    ensures Bump(r, 0, low) == r
  {
  }

  lemma LowHalfParts(r: uint32, v: uint16)
    ensures LowHalf(r, v) % 0x1_0000 == v
    ensures LowHalf(r, v) - v == r - r % 0x1_0000
  {
    var q := r / 0x1_0000;
    assert LowHalf(r, v) == q * 0x1_0000 + v;
  }

  lemma BumpAdd(r: uint32, d: int, e: int, low: bool)
    ensures Bump(Bump(r, d, low), e, low) == Bump(r, d + e, low)
  {
    if low {
      var v := Wrap16(r + d);
      LowHalfParts(r, v);
      var s := LowHalf(r, v);
      WrapAdd(s, e);
      WrapAdd(r + d, e);
      assert Wrap16(s + e) == Wrap16(r + d + e);
      LowHalfParts(s, Wrap16(s + e));
    } else {
      WrapAdd(r + d, e);
    }
  }

  lemma PointerBump(r: uint32, d: int, low: bool)
    ensures Pointer(Bump(r, d, low), low) == Truncate(Pointer(r, low) as int + d, low)
  {
    if low {
      LowHalfParts(r, Wrap16(r + d));
      WrapAdd(r, d);
    }
  }

  /** A 16-bit register update, as the machine writes it. */
  lemma HalfMoves(r: uint32, d: int)
    ensures LowHalf(r, Wrap16(r % 0x1_0000 + d)) == Bump(r, d, true)
    ensures Pointer(Bump(r, d, true), true) == Wrap16(r % 0x1_0000 + d)
  {
    WrapAdd(r, d);
    LowHalfParts(r, Wrap16(r + d));
  }

  /** `n`-byte elements at `a` and `b` do not overlap. */
  predicate Apart(a: int, b: int, n: nat) { a + n <= b || b + n <= a }

  /** Elements at least one element apart, and not so far that they meet again around the end. */
  lemma BumpApart(r: uint32, d: int, e: int, n: nat, low: bool)
    requires n <= d - e <= Modulus(low) - n || n <= e - d <= Modulus(low) - n
    ensures Apart(Pointer(Bump(r, d, low), low), Pointer(Bump(r, e, low), low), n)
  {
    PointerBump(r, d, low);
    PointerBump(r, e, low);
    TruncateApart(Pointer(r, low), d, e, n, low);
  }

  lemma TruncateApart(p: int, d: int, e: int, n: nat, low: bool)
    requires n <= d - e <= Modulus(low) - n || n <= e - d <= Modulus(low) - n
    ensures Apart(Truncate(p + d, low), Truncate(p + e, low), n)
  {
    if n > 0 {
      TruncateSum(p + e, d - e, low);
    }
  }

  /** A move of less than the range lands short of its end, or wraps around once. */
  lemma TruncateSum(p: int, d: int, low: bool)
    requires 0 - Modulus(low) < d < Modulus(low)
    ensures
      var a := Truncate(p, low) as int + d;
      Truncate(p + d, low) == if a < 0 then a + Modulus(low) else if a < Modulus(low) then a else a - Modulus(low)
  {
    WrapAdd(p, d);
  }
}
