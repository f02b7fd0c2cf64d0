/**
  The flags register and the arithmetic helpers that set it, at the two operand sizes of the
  `W` forms: 32 bits, or 16 bits after an operand-size prefix.
*/
module Arithmetic {
  import opened Words

  /** The flag bits that the modelled instructions read or write; `r0` is the reserved bit that
      INC and DEC use to hold CF. */
  datatype Flags = Flags(cf: bool, r0: bool, pf: bool, af: bool, zf: bool, sf: bool, df: bool, of: bool)

  /** One more than the largest operand. */
  function Modulus(size16: bool): nat { if size16 then 0x1_0000 else 0x1_0000_0000 }

  function Truncate(v: int, size16: bool): uint32 {
    if size16 then Wrap16(v) else Wrap32(v)
  }

  predicate Sign(v: uint32, size16: bool) { v >= Modulus(size16) / 2 }

  predicate Bit7(v: uint32) { v / 0x80 % 2 == 1 }

  /** The number of one bits of `v`. */
  function Ones(v: nat): nat {
    if v == 0 then 0 else v % 2 + Ones(v / 2)
  }

  /** Even parity of the low byte. */
  predicate EvenParity(v: nat) { Ones(v % 0x100) % 2 == 0 }

  /** OF as the emulator computes it: the operands are compared in bit 7 at every size. */
  predicate Overflow(result: uint32, v1: uint32, v2: uint32, size16: bool) {
    Bit7(v1) == Bit7(v2) && Sign(v1, size16) != Sign(result, size16)
  }

  function ResultFlags(f: Flags, result: uint32, size16: bool): Flags {
    f.(zf := result == 0, pf := EvenParity(result), sf := Sign(result, size16))
  }

  function Min(a: int, b: int): int { if b < a then b else a }

  function Sum(b: uint32, a: uint32, size16: bool): uint32 { Truncate(b + a, size16) }

  /** CF of an addition, found by comparing the result with the operands. */
  predicate CarryOut(b: uint32, a: uint32, size16: bool) { Sum(b, a, size16) < Min(b, a) }

  function Difference(b: uint32, s: uint32, size16: bool): uint32 { Truncate(b - s, size16) }

  function Negated(s: uint32, size16: bool): uint32 { Truncate(0 - (s as int), size16) }

  function AddFlags(f: Flags, b: uint32, a: uint32, size16: bool): Flags {
    ResultFlags(f, Sum(b, a, size16), size16).(
      cf := CarryOut(b, a, size16),
      of := Overflow(Sum(b, a, size16), b, a, size16),
      af := b % 0x10 + a % 0x10 > 15)
  }

  function SubFlags(f: Flags, b: uint32, s: uint32, size16: bool): Flags {
    ResultFlags(f, Difference(b, s, size16), size16).(
      cf := s > b,
      of := Overflow(Difference(b, s, size16), b, Negated(s, size16), size16),
      af := b % 0x10 - s % 0x10 < 0)
  }

  /** A result and the flags register after it. */
  datatype Outcome = Outcome(value: uint32, freg: Flags)

  /** `Add16` or `Add32`. */
  function Add(f: Flags, base: uint32, adder: uint32, size16: bool): Outcome {
    var b, a := Truncate(base, size16), Truncate(adder, size16);
    Outcome(Sum(b, a, size16), AddFlags(f, b, a, size16))
  }

  /** `Sub16` or `Sub32`. */
  function Sub(f: Flags, base: uint32, subt: uint32, size16: bool): Outcome {
    var b, s := Truncate(base, size16), Truncate(subt, size16);
    Outcome(Difference(b, s, size16), SubFlags(f, b, s, size16))
  }

  /** ADC feeds the sum of the operand and CF, truncated to 32 bits, to the adder. */
  function Adc(f: Flags, base: uint32, operand: uint32, size16: bool): Outcome {
    Add(f, base, Wrap32(operand + if f.cf then 1 else 0), size16)
  }

  /** INC and DEC put CF aside in `r0` and bring it back. */
  function Inc(f: Flags, v: uint32, size16: bool): Outcome {
    var r := Add(f.(r0 := f.cf), v, 1, size16);
    r.(freg := r.freg.(cf := r.freg.r0))
  }

  function Dec(f: Flags, v: uint32, size16: bool): Outcome {
    var r := Sub(f.(r0 := f.cf), v, 1, size16);
    r.(freg := r.freg.(cf := r.freg.r0))
  }

  // ----- Sign and magnitude -----

  /** The magnitude of an n-valued two's complement number and its sign (`Unsign16/32/64`). */
  function Unsign(v: nat, n: nat): (r: (nat, bool))
    requires v < n && n >= 2
    ensures r.0 < n
  {
    if v >= n / 2 then (n - v, true) else (v, false)
  }

  /** Negation modulo `n` when `negative` (`Resign16/32/64`). */
  function Resign(v: nat, negative: bool, n: nat): (r: nat)
    requires v < n
    ensures r < n
  {
    if negative && v > 0 then n - v else v
  }

  /** The two halves of a double-width value. */
  function High(v: nat, size16: bool): nat { v / Modulus(size16) }

  function Low(v: nat, size16: bool): nat { v % Modulus(size16) }

  lemma ProductBound(x: nat, y: nat, m: nat)
    requires x < m && y < m
    ensures 0 <= x * y < m * m
  {
  }

  /** IMUL on the accumulator: the high and low halves of the product, and CF = OF. */
  function Imul(a: uint32, b: uint32, size16: bool): (uint32, uint32, bool)
    requires a < Modulus(size16) && b < Modulus(size16)
  {
    var m := Modulus(size16);
    var (ua, na) := Unsign(a, m);
    var (ub, nb) := Unsign(b, m);
    ProductBound(ua, ub, m);
    var result := Resign(ua * ub, na != nb, m * m);
    (High(result, size16), Low(result, size16), High(ua * ub, size16) > 0)
  }

  /** How IDIV ends: a divide fault, or the contents of the quotient and remainder registers. */
  datatype Division = DivideFault | Divided(quotient: uint32, remainder: uint32)

  function Idiv(high: uint32, low: uint32, d: uint32, size16: bool): Division
    requires high < Modulus(size16) && low < Modulus(size16) && d < Modulus(size16)
  {
    var m := Modulus(size16);
    if d == 0 then DivideFault
    else
      var (divisor, nd) := Unsign(d, m);
      var (dividend, nD) := Unsign(high * m + low, m * m);
      QuotientBound(dividend, divisor);
      if dividend / divisor > m - 1 then DivideFault
      else Divided(Resign(dividend / divisor, nd != nD, m), dividend % divisor)
  }

  lemma QuotientBound(x: nat, d: nat)
    requires d > 0
    ensures 0 <= x / d && x == x / d * d + x % d && 0 <= x % d < d
  {
  }
}
