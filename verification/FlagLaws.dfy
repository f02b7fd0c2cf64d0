/** All six status flags of additions and subtractions, by the integers that are added and subtracted. */
module FlagLaws {
  import opened Words
  import opened Arithmetic
  import opened ArithmeticLaws

  // ----- What a result shows -----

  /** An even number of the low eight bits is set. */
  predicate EvenOnes(v: nat) {
    (v % 2 + v / 2 % 2 + v / 4 % 2 + v / 8 % 2 + v / 16 % 2 + v / 32 % 2 + v / 64 % 2 + v / 128 % 2) % 2 == 0
  }

  lemma Halves(v: nat, d: nat)
    requires d > 0
    ensures v / d / 2 == v / (2 * d)
  {
    var q, r := v / d, v % d;
    assert v == q * d + r;
    assert q * d == q / 2 * (2 * d) + q % 2 * d;
    assert v == q / 2 * (2 * d) + (q % 2 * d + r);
    QuotientUnique(v, 2 * d, q / 2, q % 2 * d + r);
  }

  lemma QuotientUnique(v: nat, d: nat, q: nat, r: nat)
    requires r < d && v == q * d + r
    ensures v / d == q
  {
    var q', r' := v / d, v % d;
    HigherByOne(q, q', d);
    HigherByOne(q', q, d);
  }

  /** The ones of `w` from the bit worth `d` on. */
  lemma OnesFrom(w: nat, d: nat)
    requires d > 0
    ensures Ones(w / d) == w / d % 2 + Ones(w / (2 * d))
  {
    Halves(w, d);
    OnesSplit(w / d);
  }

  lemma OnesSplit(v: nat)
    ensures Ones(v) == v % 2 + Ones(v / 2)
  {
  }

  lemma ParityMeans(v: nat)
    ensures EvenParity(v) <==> EvenOnes(v % 0x100)
  {
    hide Ones;
    var w := v % 0x100;
    OnesSplit(w);
    OnesFrom(w, 2);
    OnesFrom(w, 4);
    OnesFrom(w, 8);
    OnesFrom(w, 16);
    OnesFrom(w, 32);
    OnesFrom(w, 64);
    OnesFrom(w, 128);
    assert w / 256 == 0;
    NoOnes();
  }

  lemma NoOnes()
    ensures Ones(0) == 0
  {
  }

  /** ZF, SF and PF tell of the result that it is zero, negative, and of even parity in its low byte. */
  predicate Shows(g: Flags, r: uint32, size16: bool) {
    (g.zf <==> r == 0) && (g.sf <==> Signed(r, Modulus(size16)) < 0) && (g.pf <==> EvenOnes(r % 0x100))
  }

  lemma ResultShown(f: Flags, r: uint32, size16: bool)
    requires r < Modulus(size16)
    ensures Shows(ResultFlags(f, r, size16), r, size16)
  {
    hide EvenParity, EvenOnes;
    ParityMeans(r);
  }

  /** The signed number does not fit the operand size. */
  predicate Overflows(x: int, size16: bool) { !(-(Modulus(size16) / 2) <= x < Modulus(size16) / 2) }

  // ----- Addition -----

  /** The operands on which bit 7 stands in for the sign bits in an addition: the low parts carry exactly when `a` is
      negative, or bits 7 agree exactly when the signs do. */
  predicate Bit7Adds(b: uint32, a: uint32, size16: bool) {
    var half := Modulus(size16) / 2;
    || ((b % half + a % half >= half) == Sign(a, size16))
    || ((Bit7(b) == Bit7(a)) == (Sign(b, size16) == Sign(a, size16)))
  }

  /** What an addition of `a` to `b` leaves; OF is the signed overflow exactly when bit 7 says so too. */
  predicate IsSum(f: Flags, b: uint32, a: uint32, size16: bool, r: uint32, g: Flags) {
    var m := Modulus(size16);
    && r == (b as int + a as int) % m && Shows(g, r, size16)
    && (g.cf <==> b as int + a as int >= m) && (g.af <==> b % 16 + a % 16 >= 16)
    && ((g.of <==> Overflows(Signed(b, m) + Signed(a, m), size16)) <==> Bit7Adds(b, a, size16))
    && g.df == f.df && g.r0 == f.r0
  }

  lemma AddMeans(f: Flags, b: uint32, a: uint32, size16: bool)
    requires b < Modulus(size16) && a < Modulus(size16)
    ensures
      var o := Add(f, b, a, size16);
      o.value == (b as int + a as int) % Modulus(size16) && IsSum(f, b, a, size16, o.value, o.freg)
  {
    hide EvenParity, EvenOnes, Overflow, Bit7, Bit7Adds, Overflows;
    TruncateSmall(b, size16);
    TruncateSmall(a, size16);
    SumExact(b, a, size16);
    var r := Sum(b, a, size16);
    SumValue(b, a, size16);
    ResultShown(f, r, size16);
    AddOverflows(b, a, size16);
  }

  lemma SumValue(b: uint32, a: uint32, size16: bool)
    ensures Sum(b, a, size16) == (b as int + a as int) % Modulus(size16)
  {
  }

  lemma SumFits(b: uint32, a: uint32, size16: bool)
    ensures Sum(b, a, size16) < Modulus(size16)
  {
  }

  lemma AddOverflows(b: uint32, a: uint32, size16: bool)
    requires b < Modulus(size16) && a < Modulus(size16)
    ensures
      var m := Modulus(size16);
      (Overflow(Sum(b, a, size16), b, a, size16) <==> Overflows(Signed(b, m) + Signed(a, m), size16)) <==> Bit7Adds(b, a, size16)
  {
    hide Bit7, Sum;
    SumExact(b, a, size16);
    SumFits(b, a, size16);
    LowerPart(b, size16);
    LowerPart(a, size16);
  }

  /** 0x7FFFFFFF + 1 overflows, and OF stays clear: the operands differ in bit 7. */
  lemma AddOverflowFails(f: Flags)
    ensures !Add(f, 0x7FFF_FFFF, 1, false).freg.of
    ensures Overflows(Signed(0x7FFF_FFFF, 0x1_0000_0000) + Signed(1, 0x1_0000_0000), false)
  {
    hide Add, Sum, Overflows, Bit7Adds, EvenOnes;
    AddMeans(f, 0x7FFF_FFFF, 1, false);
    OutOfRange();
    Bit7Misleads();
  }

  lemma OutOfRange()
    ensures Overflows(Signed(0x7FFF_FFFF, 0x1_0000_0000) + Signed(1, 0x1_0000_0000), false)
  {
  }

  lemma Bit7Misleads()
    ensures !Bit7Adds(0x7FFF_FFFF, 1, false)
  {
    assert 0x7FFF_FFFF % 0x8000_0000 == 0x7FFF_FFFF;
    assert Bit7(0x7FFF_FFFF) && !Bit7(1);
  }

  // ----- Subtraction -----

  /** What a subtraction of `s` from `b` leaves. */
  predicate IsDifference(f: Flags, b: uint32, s: uint32, size16: bool, r: uint32, g: Flags) {
    var m := Modulus(size16);
    && r == (b as int - s as int) % m && Shows(g, r, size16)
    && (g.cf <==> b < s) && (g.af <==> b % 16 < s % 16)
    && ((g.of <==> Overflows(Signed(b, m) - Signed(s, m), size16)) <==> Bit7Decides(b, s, size16))
    && g.df == f.df && g.r0 == f.r0
  }

  lemma SubMeans(f: Flags, b: uint32, s: uint32, size16: bool)
    requires b < Modulus(size16) && s < Modulus(size16)
    ensures
      var o := Sub(f, b, s, size16);
      o.value == (b as int - s as int) % Modulus(size16) && IsDifference(f, b, s, size16, o.value, o.freg)
  {
    hide EvenParity, EvenOnes, Overflow, Bit7, Bit7Decides, Overflows;
    TruncateSmall(b, size16);
    TruncateSmall(s, size16);
    DifferenceValue(b, s, size16);
    ResultShown(f, Difference(b, s, size16), size16);
    SubOverflows(b, s, size16);
  }

  lemma DifferenceValue(b: uint32, s: uint32, size16: bool)
    ensures Difference(b, s, size16) == (b as int - s as int) % Modulus(size16)
  {
  }

  lemma SubOverflows(b: uint32, s: uint32, size16: bool)
    requires b < Modulus(size16) && s < Modulus(size16)
    ensures
      var m := Modulus(size16);
      (Overflow(Difference(b, s, size16), b, Negated(s, size16), size16) <==> Overflows(Signed(b, m) - Signed(s, m), size16))
      <==> Bit7Decides(b, s, size16)
  {
    hide Bit7, Difference, Negated;
    NegatedBit7(s, size16);
    DifferenceSign(b, s, size16);
    LowerPart(b, size16);
    LowerPart(s, size16);
  }

  // ----- INC, DEC and ADC -----

  /** INC and DEC are an addition and a subtraction of one but for CF, which stays, with a copy in the reserved bit. */
  lemma CountMeans(f: Flags, v: uint32, size16: bool)
    requires v < Modulus(size16)
    ensures
      var o := Inc(f, v, size16);
      && IsSum(f.(r0 := f.cf), v, 1, size16, o.value, o.freg.(cf := v as int + 1 >= Modulus(size16)))
      && o.freg.cf == f.cf && o.freg.r0 == f.cf
    ensures
      var o := Dec(f, v, size16);
      && IsDifference(f.(r0 := f.cf), v, 1, size16, o.value, o.freg.(cf := v < 1))
      && o.freg.cf == f.cf && o.freg.r0 == f.cf
  {
    hide Add, Sub, EvenOnes, Bit7Adds, Bit7Decides, Overflows;
    var h := f.(r0 := f.cf);
    AddMeans(h, v, 1, size16);
    SubMeans(h, v, 1, size16);
  }

  /** ADC adds its operand plus CF, where the sum that wraps is zero. */
  lemma AdcMeans(f: Flags, b: uint32, a: uint32, size16: bool)
    requires b < Modulus(size16) && a < Modulus(size16)
    ensures
      var o := Adc(f, b, a, size16);
      IsSum(f, b, (a as int + Num(f.cf)) % Modulus(size16), size16, o.value, o.freg)
  {
    hide IsSum, Add;
    var y := a as int + Num(f.cf);
    AddMeans(f, b, y % Modulus(size16), size16);
    if size16 {
      NarrowTwice(y);
    }
    AddTruncates(f, b, Wrap32(y), y % Modulus(size16), size16);
  }

  lemma AddTruncates(f: Flags, b: uint32, x: uint32, y: uint32, size16: bool)
    requires Truncate(x, size16) == Truncate(y, size16)
    ensures Add(f, b, x, size16) == Add(f, b, y, size16)
  {
    hide AddFlags, Truncate;
  }

  // ----- The conditions on single flags -----

  /** After a subtraction S and NS tell the sign of the difference, P and NP its parity, and O and NO, exactly when
      bit 7 decides as the sign bits would, its signed overflow. */
  lemma FlagConditions(f: Flags, b: uint32, s: uint32, size16: bool)
    requires b < Modulus(size16) && s < Modulus(size16)
    ensures
      var m, g := Modulus(size16), Sub(f, b, s, size16).freg;
      var r := (b as int - s as int) % m;
      && (Jcc(8, g) <==> Signed(r, m) < 0) && (Jcc(9, g) <==> Signed(r, m) >= 0)
      && (Jcc(10, g) <==> EvenOnes(r % 0x100)) && (Jcc(11, g) <==> !EvenOnes(r % 0x100))
      && ((Jcc(0, g) <==> Overflows(Signed(b, m) - Signed(s, m), size16)) <==> Bit7Decides(b, s, size16))
      && ((Jcc(1, g) <==> !Overflows(Signed(b, m) - Signed(s, m), size16)) <==> Bit7Decides(b, s, size16))
  {
    hide Sub, EvenOnes, Bit7Decides, Overflows;
    SubMeans(f, b, s, size16);
  }
}
