/**
  What the flag-setting helpers mean as integer arithmetic: carries and borrows, multi-precision
  addition, comparisons, signed multiplication and division.
*/
module ArithmeticLaws {
  import opened Words
  import opened Arithmetic

  function Num(b: bool): nat { if b then 1 else 0 }

  /** The two's complement reading of `v` modulo `n`. */
  function Signed(v: nat, n: nat): int { if v >= n / 2 then v - n else v }

  function Abs(v: int): nat { if v < 0 then -v else v }

  // ----- Addition -----

  lemma TruncateSmall(v: uint32, size16: bool)
    requires v < Modulus(size16)
    ensures Truncate(v, size16) == v
  {
  }

  lemma SumExact(b: uint32, a: uint32, size16: bool)
    requires b < Modulus(size16) && a < Modulus(size16)
    ensures Sum(b, a, size16) + Num(CarryOut(b, a, size16)) * Modulus(size16) == b as int + a as int
  {
  }

  /** CF is the carry out: result and carry together are the exact sum. */
  lemma AddExact(f: Flags, b: uint32, a: uint32, size16: bool)
    requires b < Modulus(size16) && a < Modulus(size16)
    ensures
      var r := Add(f, b, a, size16);
      r.value + Num(r.freg.cf) * Modulus(size16) == b as int + a as int
  {
    TruncateSmall(b, size16);
    TruncateSmall(a, size16);
    SumExact(b, a, size16);
  }

  /** One limb of a long addition: ADC is exact unless CF is set and the operand is all ones;
      then the carry out is lost. */
  lemma AdcExact(f: Flags, b: uint32, a: uint32, size16: bool)
    requires b < Modulus(size16) && a < Modulus(size16)
    ensures
      var m := Modulus(size16);
      var r := Adc(f, b, a, size16);
      r.value < m && r.value + Num(r.freg.cf) * m + (if f.cf && a == m - 1 then m else 0) == b as int + a as int + Num(f.cf)
  {
    var adder := Truncate(Wrap32(a + if f.cf then 1 else 0), size16);
    TruncateSmall(b, size16);
    SumExact(b, adder, size16);
    assert adder + (if f.cf && a == Modulus(size16) - 1 then Modulus(size16) else 0) == a as int + Num(f.cf);
  }

  /** 0 + 0xFFFFFFFF + CF is 2^32: the result is right and the carry out is lost. */
  lemma AdcDropsCarry(f: Flags)
    requires f.cf
    ensures Adc(f, 0, 0xFFFF_FFFF, false).value == 0 && !Adc(f, 0, 0xFFFF_FFFF, false).freg.cf
  {
    hide EvenParity, Overflow, Sign;
    assert Wrap32(0xFFFF_FFFF + 1) == 0;
  }

  lemma IncDecKeepCarry(f: Flags, v: uint32, size16: bool)
    ensures Inc(f, v, size16).freg.cf == f.cf && Dec(f, v, size16).freg.cf == f.cf
  {
  }

  /** The instructions of a long addition: one ADC a limb, with INC and DEC anywhere between. */
  datatype LongOp = Limb(b: uint32, a: uint32) | Count(v: uint32, up: bool)

  ghost predicate Sized(ops: seq<LongOp>, size16: bool) {
    forall i :: 0 <= i < |ops| ==> ops[i].Limb? ==> ops[i].b < Modulus(size16) && ops[i].a < Modulus(size16)
  }

  function Execute(f: Flags, op: LongOp, size16: bool): Outcome {
    match op
    case Limb(b, a) => Adc(f, b, a, size16)
    case Count(v, up) => if up then Inc(f, v, size16) else Dec(f, v, size16)
  }

  /** The limbs of the result and the final flags. */
  function LongAdd(f: Flags, ops: seq<LongOp>, size16: bool): (seq<uint32>, Flags)
    decreases |ops|
  {
    if ops == [] then ([], f)
    else
      var r := Execute(f, ops[0], size16);
      var (rest, last) := LongAdd(r.freg, ops[1..], size16);
      (if ops[0].Limb? then [r.value] + rest else rest, last)
  }

  function Bases(ops: seq<LongOp>): seq<uint32> {
    if ops == [] then [] else (if ops[0].Limb? then [ops[0].b] else []) + Bases(ops[1..])
  }

  function Adders(ops: seq<LongOp>): seq<uint32> {
    if ops == [] then [] else (if ops[0].Limb? then [ops[0].a] else []) + Adders(ops[1..])
  }

  /** The number whose little-endian limbs are `limbs`. */
  function Value(limbs: seq<uint32>, m: nat): nat {
    if limbs == [] then 0 else limbs[0] + m * Value(limbs[1..], m)
  }

  function Power(m: nat, n: nat): nat { if n == 0 then 1 else m * Power(m, n - 1) }

  /** The carries that ADC drops in a run, by weight. */
  function Lost(f: Flags, ops: seq<LongOp>, size16: bool): nat
    decreases |ops|
  {
    if ops == [] then 0
    else
      var m, g := Modulus(size16), Execute(f, ops[0], size16).freg;
      if ops[0].Limb? then (if f.cf && ops[0].a == m - 1 then m else 0) + m * Lost(g, ops[1..], size16)
      else Lost(g, ops[1..], size16)
  }

  /** Some limb adds all ones while the carry is set. */
  predicate CarryMeetsAllOnes(f: Flags, ops: seq<LongOp>, size16: bool)
    decreases |ops|
  {
    ops != [] &&
    (|| (ops[0].Limb? && f.cf && ops[0].a == Modulus(size16) - 1)
     || CarryMeetsAllOnes(Execute(f, ops[0], size16).freg, ops[1..], size16))
  }

  lemma LimbArithmetic(m: nat, r: nat, c: nat, x: nat, b: nat, a: nat, c0: nat, tail: nat, top: nat, lost: nat, bs: nat, as': nat)
    requires r + c * m + x == b + a + c0
    requires tail + top + lost == bs + as' + c
    ensures (r + m * tail) + m * top + (x + m * lost) == (b + m * bs) + (a + m * as') + c0
  {
    assert m * (tail + top + lost) == m * (bs + as' + c);
  }

  /** The run computes the big-integer sum up to the dropped carries, whatever INC and DEC do between. */
  ghost predicate SumHolds(f: Flags, ops: seq<LongOp>, size16: bool) {
    var m := Modulus(size16);
    var (r, g) := LongAdd(f, ops, size16);
    && |r| == |Bases(ops)| == |Adders(ops)|
    && Value(r, m) + Num(g.cf) * Power(m, |r|) + Lost(f, ops, size16) ==
       Value(Bases(ops), m) + Value(Adders(ops), m) + Num(f.cf)
  }

  lemma ValueCons(v: uint32, rest: seq<uint32>, m: nat)
    ensures Value([v] + rest, m) == v + m * Value(rest, m)
  {
    assert ([v] + rest)[1..] == rest;
  }

  lemma PowerShift(c: nat, m: nat, n: nat)
    ensures c * Power(m, n + 1) == m * (c * Power(m, n))
  {
    var p := Power(m, n);
    assert c * (m * p) == m * (c * p);
  }

  lemma LimbStep(f: Flags, b: uint32, a: uint32, rest: seq<LongOp>, size16: bool)
    requires b < Modulus(size16) && a < Modulus(size16)
    requires SumHolds(Adc(f, b, a, size16).freg, rest, size16)
    ensures SumHolds(f, [Limb(b, a)] + rest, size16)
  {
    var m, o := Modulus(size16), Adc(f, b, a, size16);
    var (r, g) := LongAdd(o.freg, rest, size16);
    var ops := [Limb(b, a)] + rest;
    assert ops[1..] == rest;
    AdcExact(f, b, a, size16);
    ValueCons(o.value, r, m);
    ValueCons(b, Bases(rest), m);
    ValueCons(a, Adders(rest), m);
    PowerShift(Num(g.cf), m, |r|);
    LimbArithmetic(m, o.value, Num(o.freg.cf), if f.cf && a == m - 1 then m else 0, b, a, Num(f.cf),
                   Value(r, m), Num(g.cf) * Power(m, |r|), Lost(o.freg, rest, size16),
                   Value(Bases(rest), m), Value(Adders(rest), m));
  }

  lemma CountStep(f: Flags, v: uint32, up: bool, rest: seq<LongOp>, size16: bool)
    requires SumHolds(Execute(f, Count(v, up), size16).freg, rest, size16)
    ensures SumHolds(f, [Count(v, up)] + rest, size16)
  {
    var ops := [Count(v, up)] + rest;
    assert ops[1..] == rest;
    IncDecKeepCarry(f, v, size16);
    assert Bases(ops) == Bases(rest) && Adders(ops) == Adders(rest);
  }

  lemma {:induction false} LongAddSum(f: Flags, ops: seq<LongOp>, size16: bool)
    requires Sized(ops, size16)
    ensures SumHolds(f, ops, size16)
    decreases |ops|
  {
    if ops == [] {
    } else {
      var rest := ops[1..];
      assert ops == [ops[0]] + rest;
      LongAddSum(Execute(f, ops[0], size16).freg, rest, size16);
      if ops[0].Limb? {
        LimbStep(f, ops[0].b, ops[0].a, rest, size16);
      } else {
        CountStep(f, ops[0].v, ops[0].up, rest, size16);
      }
    }
  }

  lemma {:induction false} LostNothing(f: Flags, ops: seq<LongOp>, size16: bool)
    ensures Lost(f, ops, size16) == 0 <==> !CarryMeetsAllOnes(f, ops, size16)
    decreases |ops|
  {
    if ops != [] {
      LostNothing(Execute(f, ops[0], size16).freg, ops[1..], size16);
    }
  }

  /** A long addition is exact, with CF as its carry out, if and only if no limb adds all ones
      while the carry is set. */
  lemma LongAddExact(f: Flags, ops: seq<LongOp>, size16: bool)
    requires Sized(ops, size16)
    ensures
      var m := Modulus(size16);
      var (r, g) := LongAdd(f, ops, size16);
      Value(r, m) + Num(g.cf) * Power(m, |r|) == Value(Bases(ops), m) + Value(Adders(ops), m) + Num(f.cf)
      <==> !CarryMeetsAllOnes(f, ops, size16)
  {
    LongAddSum(f, ops, size16);
    LostNothing(f, ops, size16);
  }

  // ----- Comparison and conditional jumps -----

  /** The sixteen conditions of Jcc, SETcc. */
  predicate Jcc(condition: nat, f: Flags)
    requires condition < 16
  {
    match condition
    case 0 => f.of
    case 1 => !f.of
    case 2 => f.cf
    case 3 => !f.cf
    case 4 => f.zf
    case 5 => !f.zf
    case 6 => f.cf || f.zf
    case 7 => !f.cf && !f.zf
    case 8 => f.sf
    case 9 => !f.sf
    case 10 => f.pf
    case 11 => !f.pf
    case 12 => f.sf != f.of
    case 13 => f.sf == f.of
    case 14 => f.sf != f.of || f.zf
    case _ => f.sf == f.of && !f.zf
  }

  lemma ZeroDifference(b: uint32, s: uint32, size16: bool)
    requires b < Modulus(size16) && s < Modulus(size16)
    ensures Difference(b, s, size16) == 0 <==> b == s
  {
  }

  /** After a comparison the unsigned conditions order the operands. */
  lemma UnsignedConditions(f: Flags, b: uint32, s: uint32, size16: bool)
    requires b < Modulus(size16) && s < Modulus(size16)
    ensures
      var g := Sub(f, b, s, size16).freg;
      && (Jcc(2, g) <==> b < s) && (Jcc(3, g) <==> b >= s)
      && (Jcc(4, g) <==> b == s) && (Jcc(5, g) <==> b != s)
      && (Jcc(6, g) <==> b <= s) && (Jcc(7, g) <==> b > s)
  {
    TruncateSmall(b, size16);
    TruncateSmall(s, size16);
    ZeroDifference(b, s, size16);
    var g := Sub(f, b, s, size16).freg;
    assert g.cf == (s > b) && g.zf == (b == s);
  }

  /** The operands on which bit 7, which OF looks at, stands in for the sign bits: the low parts borrow exactly when
      `s` is negative, so that the sign of the difference is that of `b` and OF stays clear as it should; or the
      bits 7 of `b` and of the negated `s` agree exactly when the signs of `b` and `s` differ. */
  predicate Bit7Decides(b: uint32, s: uint32, size16: bool) {
    var half := Modulus(size16) / 2;
    || ((b % half < s % half) == Sign(s, size16))
    || ((Bit7(b) == (1 <= s % 0x100 <= 0x80)) == (Sign(b, size16) != Sign(s, size16)))
  }

  lemma DifferenceSign(b: uint32, s: uint32, size16: bool)
    requires b < Modulus(size16) && s < Modulus(size16)
    ensures
      var half := Modulus(size16) / 2;
      Sign(b, size16) == Sign(Difference(b, s, size16), size16) <==> (b % half < s % half) == Sign(s, size16)
  {
    var m := Modulus(size16);
    var d: nat := if s <= b then b as int - s as int else b as int - s as int + m;
    ModUnique(b as int - s as int, m, d);
    LowerPart(b, size16);
    LowerPart(s, size16);
    HalfBorrow(b, s, d, m / 2);
  }

  lemma LowerPart(v: uint32, size16: bool)
    requires v < Modulus(size16)
    ensures v % (Modulus(size16) / 2) == if Sign(v, size16) then v - Modulus(size16) / 2 else v
  {
    if size16 {
      assert v % 0x8000 == if v >= 0x8000 then v - 0x8000 else v;
    } else {
      assert v % 0x8000_0000 == if v >= 0x8000_0000 then v - 0x8000_0000 else v;
    }
  }

  lemma HalfBorrow(b: nat, s: nat, d: nat, h: nat)
    requires b < 2 * h && s < 2 * h && d == if s <= b then b - s else b - s + 2 * h
    ensures
      var low, low' := if b < h then b else b - h, if s < h then s else s - h;
      (b >= h) == (d >= h) <==> (low < low') == (s >= h)
  {
  }

  lemma NegatedBit7(s: uint32, size16: bool)
    requires s < Modulus(size16)
    ensures Bit7(Negated(s, size16)) <==> 1 <= s % 0x100 <= 0x80
  {
    var n, q, r := Negated(s, size16), s / 0x100, s % 0x100;
    if r > 0 {
      LowByteOf(n, Modulus(size16) / 0x100 - 1 - q, 0x100 - r);
    } else {
      LowByteOf(n, if s == 0 then 0 else Modulus(size16) / 0x100 - q, 0);
    }
  }

  lemma LowByteOf(v: nat, q: nat, r: nat)
    requires v == q * 0x100 + r && r < 0x100
    ensures v / 0x80 % 2 == 1 <==> r >= 0x80
  {
    if r >= 0x80 {
      assert v / 0x80 == 2 * q + 1;
    } else {
      assert v / 0x80 == 2 * q;
    }
  }

  /** With a true overflow bit, the sign of the difference orders signed operands. */
  lemma SignOrders(b: uint32, s: uint32, size16: bool)
    requires b < Modulus(size16) && s < Modulus(size16)
    ensures
      var m := Modulus(size16);
      var db, ds, dr := Sign(b, size16), Sign(s, size16), Sign(Difference(b, s, size16), size16);
      (dr != (db != ds && db != dr)) <==> Signed(b, m) < Signed(s, m)
  {
  }

  /** The signed conditions order the operands exactly when bit 7 decides as the sign bits would; LE and G,
      which look at ZF too, also when the operands are equal. */
  lemma SignedConditions(f: Flags, b: uint32, s: uint32, size16: bool)
    requires b < Modulus(size16) && s < Modulus(size16)
    ensures
      var m, g := Modulus(size16), Sub(f, b, s, size16).freg;
      && ((Jcc(12, g) <==> Signed(b, m) < Signed(s, m)) <==> Bit7Decides(b, s, size16))
      && ((Jcc(13, g) <==> Signed(b, m) >= Signed(s, m)) <==> Bit7Decides(b, s, size16))
      && ((Jcc(14, g) <==> Signed(b, m) <= Signed(s, m)) <==> Bit7Decides(b, s, size16) || b == s)
      && ((Jcc(15, g) <==> Signed(b, m) > Signed(s, m)) <==> Bit7Decides(b, s, size16) || b == s)
  {
    TruncateSmall(b, size16);
    TruncateSmall(s, size16);
    SignOrders(b, s, size16);
    DifferenceSign(b, s, size16);
    NegatedBit7(s, size16);
    ZeroDifference(b, s, size16);
    var g := Sub(f, b, s, size16).freg;
    assert g.sf == Sign(Difference(b, s, size16), size16);
    assert g.of == Overflow(Difference(b, s, size16), b, Negated(s, size16), size16);
  }

  /** `cmp 0x80000000, 1` followed by JL is not taken, though the operands are in order. */
  lemma SignedConditionFails(f: Flags)
    ensures !Jcc(12, Sub(f, 0x8000_0000, 1, false).freg)
    ensures Signed(0x8000_0000, 0x1_0000_0000) < Signed(1, 0x1_0000_0000)
  {
    TruncateSmall(0x8000_0000, false);
    TruncateSmall(1, false);
    assert Difference(0x8000_0000, 1, false) == 0x7fff_ffff && Negated(1, false) == 0xffff_ffff;
    assert !Bit7(0x8000_0000) && Bit7(0xffff_ffff);
    assert !Sub(f, 0x8000_0000, 1, false).freg.of && !Sub(f, 0x8000_0000, 1, false).freg.sf;
  }

  // ----- Multiplication and division -----

  lemma UnsignIsAbs(v: nat, n: nat)
    requires v < n && n % 2 == 0 && n >= 2
    ensures Unsign(v, n).0 == Abs(Signed(v, n)) <= n / 2
    ensures Unsign(v, n).1 == (Signed(v, n) < 0)
  {
  }

  lemma AbsProduct(x: int, y: int)
    ensures x * y == if (x < 0) == (y < 0) then Abs(x) * Abs(y) else -(Abs(x) * Abs(y))
    ensures Abs(x * y) == Abs(x) * Abs(y)
  {
  }

  lemma HalfProduct(x: nat, y: nat, h: nat)
    requires x <= h && y <= h
    ensures x * y <= h * h
  {
  }

  /** A magnitude with its sign, resigned modulo `n`, reads back as the signed number. */
  lemma ResignReads(p: nat, negative: bool, n: nat)
    requires p < n / 2
    ensures Signed(Resign(p, negative, n), n) == if negative then 0 - p else p
  {
  }

  lemma Split(v: nat, m: nat)
    requires 0 < m && v < m * m
    ensures 0 <= v / m < m && 0 <= v % m < m && v / m * m + v % m == v
  {
  }

  lemma QuarterFits(m: nat)
    requires m == 0x1_0000 || m == 0x1_0000_0000
    ensures m / 2 * (m / 2) < m * m / 2
  {
  }

  /** IMUL leaves the exact signed product in the register pair; CF and OF say that its magnitude
      does not fit the low register as an unsigned number. */
  lemma ImulExact(a: uint32, b: uint32, size16: bool)
    requires a < Modulus(size16) && b < Modulus(size16)
    ensures
      var m := Modulus(size16);
      var (high, low, cf) := Imul(a, b, size16);
      var product := Signed(a, m) * Signed(b, m);
      && high < m && low < m
      && Signed(high * m + low, m * m) == product
      && (cf <==> Abs(product) >= m)
  {
    var m := Modulus(size16);
    UnsignIsAbs(a, m);
    UnsignIsAbs(b, m);
    var x, y := Signed(a, m), Signed(b, m);
    var p := Abs(x) * Abs(y);
    AbsProduct(x, y);
    assert p < m * m / 2 by {
      HalfProduct(Abs(x), Abs(y), m / 2);
      QuarterFits(m);
    }
    var result := Resign(p, (x < 0) != (y < 0), m * m);
    assert Signed(result, m * m) == x * y by {
      ResignReads(p, (x < 0) != (y < 0), m * m);
    }
    Split(result, m);
    Split(p, m);
    var r := Imul(a, b, size16);
    assert r.0 == result / m && r.1 == result % m && r.2 == (p / m > 0);
  }

  /** The product and its size determine what IMUL leaves. */
  lemma ImulDetermined(a: uint32, b: uint32, size16: bool, high: uint32, low: uint32, overflow: bool)
    requires a < Modulus(size16) && b < Modulus(size16) && high < Modulus(size16) && low < Modulus(size16)
    requires
      var m := Modulus(size16);
      var product := Signed(a, m) * Signed(b, m);
      Signed(high * m + low, m * m) == product && (overflow <==> Abs(product) >= m)
    ensures (high, low, overflow) == Imul(a, b, size16)
  {
    hide Imul;
    ImulExact(a, b, size16);
    var m, r := Modulus(size16), Imul(a, b, size16);
    SignedDetermines(high * m + low, r.0 * m + r.1, m * m) by {
      HalvesBound(high, low, m);
      HalvesBound(r.0, r.1, m);
    }
    HalvesDetermined(high, low, r.0, r.1, m);
  }

  lemma HalvesBound(high: nat, low: nat, m: nat)
    requires high < m && low < m
    ensures 0 <= high * m + low < m * m
  {
    assert (high + 1) * m <= m * m;
  }

  lemma SignedDetermines(v: nat, w: nat, n: nat)
    requires v < n && w < n && Signed(v, n) == Signed(w, n)
    ensures v == w
  {
  }

  lemma HalvesDetermined(high: nat, low: nat, high': nat, low': nat, m: nat)
    requires low < m && low' < m && high * m + low == high' * m + low'
    ensures high == high' && low == low'
  {
    HigherByOne(high, high', m);
    HigherByOne(high', high, m);
  }

  lemma HigherByOne(a: nat, b: nat, m: nat)
    ensures a < b ==> a * m + m <= b * m
  {
    if a < b {
      assert (a + 1) * m <= b * m;
    }
  }

  /** The manual sets CF when the product does not fit the low register as a signed number; the
      emulator agrees except on the products in between. */
  lemma ImulCarry(a: uint32, b: uint32, size16: bool)
    requires a < Modulus(size16) && b < Modulus(size16)
    ensures
      var m := Modulus(size16);
      var product := Signed(a, m) * Signed(b, m);
      (Imul(a, b, size16).2 <==> !(-(m / 2) <= product < m / 2)) <==>
      !(m / 2 <= product < m || 0 - m < product < -(m / 2))
  {
    ImulExact(a, b, size16);
  }

  /** 0x10000 times 0x8000 is 2^31, which no signed 32-bit register holds, yet CF stays clear. */
  lemma ImulCarryFails()
    ensures Imul(0x1_0000, 0x8000, false) == (0, 0x8000_0000, false)
    ensures Signed(0x8000_0000, 0x1_0000_0000) != Signed(0x1_0000, 0x1_0000_0000) * Signed(0x8000, 0x1_0000_0000)
  {
  }

  /** Division rounding toward zero. */
  function TruncDiv(x: int, d: int): int
    requires d != 0
  {
    if (x < 0) == (d < 0) then Abs(x) / Abs(d) else -(Abs(x) / Abs(d))
  }

  function TruncRem(x: int, d: int): int
    requires d != 0
  {
    if x < 0 then -(Abs(x) % Abs(d)) else Abs(x) % Abs(d)
  }

  lemma TruncIdentity(x: int, d: int)
    requires d != 0
    ensures x == TruncDiv(x, d) * d + TruncRem(x, d) && Abs(TruncRem(x, d)) < Abs(d)
  {
    QuotientBound(Abs(x), Abs(d));
    var q := Abs(x) / Abs(d);
    SignedProducts(q, d);
  }

  lemma SignedProducts(q: nat, d: int)
    ensures q * d == if d < 0 then 0 - q * Abs(d) else q * Abs(d)
    ensures (0 - q) * d == if d < 0 then q * Abs(d) else 0 - q * Abs(d)
  {
  }

  /** IDIV faults exactly when the divisor is zero or the magnitude of the quotient does not fit the
      register.  Otherwise the quotient register holds the truncated quotient modulo 2^n, which is the
      signed quotient exactly when that fits, and the other register the remainder of the magnitudes. */
  lemma IdivMeaning(high: uint32, low: uint32, d: uint32, size16: bool)
    requires high < Modulus(size16) && low < Modulus(size16) && d < Modulus(size16)
    ensures
      var m := Modulus(size16);
      var x, y := Signed(high * m + low, m * m), Signed(d, m);
      var r := Idiv(high, low, d, size16);
      && (r.DivideFault? <==> d == 0 || Abs(x) / Abs(y) >= m)
      && (r.Divided? ==>
            && r.remainder == Abs(x) % Abs(y) && r.quotient < m
            && (Signed(r.quotient, m) == TruncDiv(x, y) <==> -(m / 2) <= TruncDiv(x, y) < m / 2)
            && (r.quotient == if TruncDiv(x, y) < 0 then TruncDiv(x, y) + m else TruncDiv(x, y)))
  {
    var m := Modulus(size16);
    UnsignIsAbs(d, m);
    UnsignIsAbs(high * m + low, m * m);
  }

  /** The manual gives the remainder the sign of the dividend: the emulator's register holds it exactly when
      the dividend is not negative or the division leaves no remainder. */
  lemma IdivRemainder(high: uint32, low: uint32, d: uint32, size16: bool)
    requires high < Modulus(size16) && low < Modulus(size16) && d < Modulus(size16)
    requires Idiv(high, low, d, size16).Divided?
    ensures
      var m := Modulus(size16);
      var x, y := Signed(high * m + low, m * m), Signed(d, m);
      Idiv(high, low, d, size16).remainder == TruncRem(x, y) % m <==> x >= 0 || Abs(x) % Abs(y) == 0
  {
    IdivMeaning(high, low, d, size16);
    var m := Modulus(size16);
    var x, y := Signed(high * m + low, m * m), Signed(d, m);
    UnsignIsAbs(d, m);
    QuotientBound(Abs(x), Abs(y));
    SmallRemainder(Abs(x) % Abs(y), x < 0, m);
  }

  lemma SmallRemainder(r: nat, negative: bool, m: nat)
    requires 2 * r < m
    ensures r == (if negative then 0 - r else r) % m <==> !negative || r == 0
  {
    if r > 0 {
      ModUnique(0 - r, m, m - r);
    }
    ModUnique(r, m, r);
  }

  /** -7 divided by 2: the quotient is the documented -3, the remainder 1 instead of -1. */
  lemma IdivRemainderFails()
    ensures Idiv(0xFFFF_FFFF, 0xFFFF_FFF9, 2, false) == Divided(0xFFFF_FFFD, 1)
    ensures Signed(0xFFFF_FFFF * 0x1_0000_0000 + 0xFFFF_FFF9, 0x1_0000_0000 * 0x1_0000_0000) == -7
    ensures TruncDiv(-7, 2) == -3 && TruncRem(-7, 2) == -1
  {
  }

  /** 2^31 divided by 1 needs 33 bits as a signed number: the manual raises the divide error, the emulator leaves
      the most negative number. */
  lemma IdivQuotientFails()
    ensures Idiv(0, 0x8000_0000, 1, false) == Divided(0x8000_0000, 0)
    ensures Signed(0x8000_0000, 0x1_0000_0000) == -0x8000_0000 != TruncDiv(0x8000_0000, 1)
  {
    var x: nat, d: nat := 0x8000_0000, 1;
    assert x / d == x && x % d == 0;
  }

  lemma ModUnique(v: int, m: nat, r: nat)
    requires 0 < m && r < m && (v == r || v + m == r)
    ensures v % m == r
  {
  }
}
